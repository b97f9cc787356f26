/** Collapsing a path in its buffer (rtl/path.c:306-420), for marks that lie just behind a separator. The
    buffer holds the path and its NUL. */
module Path {
  import opened PathText

  const Nul := '\0'

  /** The buffer holds the text and its NUL. */
  ghost predicate Holds(a: array<char>, end: nat, t: string)
    reads a
  {
    end < a.Length && a[end] == Nul && a[..end] == t && Nul !in t
  }

  /** RtlMoveMemory of the characters from `from` up to the NUL. */
  method Move(a: array<char>, to: nat, from: nat, end: nat)
    requires to <= from <= end < a.Length
    modifies a
    ensures a[to + (end - from)] == old(a[end])
    ensures a[..to + (end - from)] == old(a[..to] + a[from..end])
    ensures forall i :: end < i < a.Length ==> a[i] == old(a[i])
  {
    forall i | to <= i <= to + (end - from) { a[i] := a[i + (from - to)]; }
  }

  lemma NotNul(a: array<char>, p: nat, q: nat, end: nat, v: string)
    requires p <= q <= end <= a.Length && a[p..end] == v && Nul !in v
    ensures q < end ==> a[q] == v[q - p] != Nul
  {
    if q < end { assert a[q] == a[p..end][q - p]; }
  }

  /** wcslen. */
  method Length(a: array<char>, ghost s: string) returns (n: nat)
    requires Holds(a, |s|, s)
    ensures n == |s|
  {
    n := 0;
    while a[n] != Nul
      invariant n <= |s|
      decreases |s| - n
    {
      assert a[n] == s[n];
      n := n + 1;
    }
    NotNul(a, 0, n, |s|, s);
  }

  method ConvertSlashes(a: array<char>, ghost s: string)
    requires Holds(a, |s|, s)
    modifies a
    ensures Holds(a, |s|, Slashed(s))
    ensures forall i :: |s| < i < a.Length ==> a[i] == old(a[i])
  {
    var p := 0;
    while a[p] != Nul
      invariant p <= |s| && a[|s|] == Nul
      invariant a[..p] == Slashed(s)[..p] && a[p..|s|] == s[p..]
      invariant forall i :: |s| < i < a.Length ==> a[i] == old(a[i])
      decreases |s| - p
    {
      assert a[p] == s[p];
      ghost var was := a[..p];
      if a[p] == '/' { a[p] := '\\'; }
      p := p + 1;
      assert a[..p] == was + [Slashed(s)[p - 1]];
    }
    assert p == |s|;
  }

  /** The text without backslashes that follow a backslash; prev comes before it. */
  function Squeezed(v: string, prev: char): string {
    if v == "" then ""
    else if v[0] != '\\' || prev != '\\' then [v[0]] + Squeezed(v[1..], v[0])
    else Squeezed(v[1..], prev)
  }

  /** No backslash comes first or follows a backslash. */
  ghost predicate Single(v: string) {
    (v != "" ==> v[0] != '\\') && forall i {:trigger v[i]} :: 0 < i < |v| && v[i] == '\\' ==> v[i - 1] != '\\'
  }

  lemma {:induction false} SqueezedSingle(v: string, prev: char)
    ensures var r := Squeezed(v, prev);
            && (prev == '\\' ==> Single(r)) && (prev != '\\' && r != "" && r[0] == '\\' ==> Single(r[1..]))
            && (forall i {:trigger r[i]} :: 0 < i < |r| && r[i] == '\\' ==> r[i - 1] != '\\')
    decreases |v|
  {
    if v != "" {
      if v[0] != '\\' || prev != '\\' { SqueezedSingle(v[1..], v[0]); } else { SqueezedSingle(v[1..], prev); }
    }
  }

  lemma {:induction false} SqueezedName(v: string, prev: char)
    requires ComponentLength(v) > 0
    ensures
      var n := ComponentLength(v);
      Squeezed(v, prev) == v[..n] + if n == |v| then "" else "\\" + Squeezed(v[n + 1..], '\\')
    decreases |v|
  {
    var w := v[1..];
    if ComponentLength(w) > 0 {
      SqueezedName(w, v[0]);
    } else if w != "" {
      assert Squeezed(w, v[0]) == "\\" + Squeezed(w[1..], '\\');
    }
  }

  lemma SplitFront(c: string, w: string)
    requires c != "" && forall i :: 0 <= i < |c| ==> c[i] != '\\'
    ensures Split(c + ("\\" + w)) == Parts([c] + Split(w).dirs, Split(w).last)
  {
    var v := c + ("\\" + w);
    LengthIs(c, "\\" + w);
    assert v[..|c|] == c && v[|c| + 1..] == w;
    SplitOnce(v, |c|, w);
  }

  /** Squeezing changes no component. */
  lemma {:induction false} SqueezedSplit(v: string)
    ensures Split(Squeezed(v, '\\')) == Split(v)
    decreases |v|
  {
    var n := ComponentLength(v);
    if n < |v| {
      var w := v[n + 1..];
      SqueezedSplit(w);
      SplitOnce(v, n, w);
      if n == 0 {
        assert [] + Split(w).dirs == Split(w).dirs;
      } else {
        SqueezedName(v, '\\');
        SplitFront(v[..n], Squeezed(w, '\\'));
      }
    } else if n > 0 {
      SqueezedName(v, '\\');
      assert v[..n] + "" == v;
    }
  }

  lemma {:induction false} SqueezedHas(v: string, prev: char, c: char)
    ensures c in Squeezed(v, prev) ==> c in v
  {
    if v != "" {
      if v[0] != '\\' || prev != '\\' { SqueezedHas(v[1..], v[0], c); } else { SqueezedHas(v[1..], prev, c); }
    }
  }

  /** Collapse duplicate backslashes. */
  method Squeeze(a: array<char>, mark: nat, ghost t: string) returns (end: nat)
    requires Holds(a, |t|, t) && 0 < mark <= |t| && t[mark - 1] == '\\'
    modifies a
    ensures end <= |t| && Holds(a, end, t[..mark] + Squeezed(t[mark..], '\\'))
    ensures forall i :: |t| < i < a.Length ==> a[i] == old(a[i])
  {
    var p;
    end, p := mark, mark;
    assert a[..mark] == t[..mark];
    while a[p] != Nul
      invariant mark <= end <= p <= |t| && a[|t|] == Nul && a[p..|t|] == t[p..]
      invariant t[..mark] + Squeezed(t[mark..], '\\') == a[..end] + Squeezed(t[p..], a[end - 1])
      invariant forall i :: |t| < i < a.Length ==> a[i] == old(a[i])
      decreases |t| - p
    {
      ghost var was, last := a[..end], a[end - 1];
      ghost var v := t[p..];
      assert a[p] == t[p] == v[0] && v[1..] == t[p + 1..];
      if a[p] != '\\' || a[end - 1] != '\\' {
        a[end] := a[p];
        end := end + 1;
        assert a[..end] == was + [v[0]];
        assert Squeezed(v, last) == [v[0]] + Squeezed(v[1..], v[0]);
      }
      p := p + 1;
    }
    assert p == |t|;
    ghost var whole := a[..end];
    assert t[..mark] + Squeezed(t[mark..], '\\') == whole;
    a[end] := Nul;
    assert a[..end] == whole;
    SqueezedHas(t[mark..], '\\', Nul);
  }

  // ----- resolving the components

  /** The components before p are resolved, v is still to be read, and from here the whole text u resolves
      as from the start. */
  ghost predicate Reading(stack: seq<string>, v: string, u: string) {
    && Proper(stack) && Single(v) && Nul !in v && '/' !in v
    && Walk(stack, Split(v).dirs) == Walk([], Split(u).dirs) && Split(v).last == Split(u).last
  }

  ghost predicate Placed(a: array<char>, pre: string, stack: seq<string>, p: nat, end: nat, v: string)
    reads a
  {
    p <= end < a.Length && a[end] == Nul && a[..p] == pre + Flat(stack) && a[p..end] == v
  }

  /** A component and its backslash are read. */
  lemma Entered(stack: seq<string>, v: string, u: string, c: string, w: string)
    requires Reading(stack, v, u) && IsName(c) && v == c + ("\\" + w)
    ensures Reading(Enter(stack, c), w, u)
  {
    SplitFront(c, w);
    EnterProper(stack, c);
    SingleBehind(v, c, w);
    var all := Split(v).dirs;
    assert all[0] == c && all[1..] == Split(w).dirs;
  }

  lemma SingleBehind(v: string, c: string, w: string)
    requires Single(v) && v == c + ("\\" + w) && Nul !in v && '/' !in v
    ensures Single(w) && Nul !in w && '/' !in w
  {
    var n := |c| + 1;
    assert w == v[n..];
    assert v[n - 1] == '\\';
    if w != "" { assert v[n] == w[0]; }
    forall i | 0 < i < |w| && w[i] == '\\' ensures w[i - 1] != '\\' {
      assert v[n + i] == w[i] && v[n + i - 1] == w[i - 1];
    }
  }

  /** The last component, with no backslash behind it. */
  lemma LastRead(stack: seq<string>, v: string, u: string)
    requires Reading(stack, v, u) && forall i :: 0 <= i < |v| ==> v[i] != '\\'
    ensures stack == Walk([], Split(u).dirs) && v == Split(u).last
  {
    LengthIs(v, "");
    assert v + "" == v;
  }

  lemma FlatTop(stack: seq<string>)
    requires stack != []
    ensures Flat(stack) == Flat(Pop(stack)) + stack[|stack| - 1] + "\\"
  {
  }

  /** Go back to where the component in front of p starts. */
  method ScanBack(a: array<char>, mark: nat, p: nat, ghost pre: string, ghost stack: seq<string>) returns (q: nat)
    requires p <= a.Length && |pre| == mark && a[..p] == pre + Flat(stack) && Proper(stack)
    ensures q <= p && a[..q] == pre + Flat(Pop(stack)) && (p > mark ==> q < p)
  {
    q := p;
    if p > mark {
      FlatTop(stack);
      ghost var f, c := pre + Flat(Pop(stack)), stack[|stack| - 1];
      assert a[..p] == f + c + "\\";
      FlatEnd(Pop(stack));
      q := q - 1;
      while q > mark && a[q - 1] != '\\'
        invariant |f| <= q <= |f| + |c|
        decreases q
      {
        NameStart(a[..p], mark, f, c, q);
        q := q - 1;
      }
      NameStart(a[..p], mark, f, c, q);
      assert a[..q] == f;
    }
  }

  /** A component starts at the mark or behind a backslash. */
  lemma NameStart(s: string, mark: nat, f: string, c: string, q: nat)
    requires s == f + c + "\\" && NoSeparator(c) && mark <= |f| <= q <= |f| + |c|
    requires |f| == mark || f[|f| - 1] == '\\'
    ensures q > mark && s[q - 1] != '\\' <==> q > |f|
  {
    if q > |f| { assert s[q - 1] == c[q - 1 - |f|]; } else if q > mark { assert s[q - 1] == f[q - 1]; }
  }

  /** Skip to the next component. */
  method ScanName(a: array<char>, p: nat, end: nat, ghost v: string) returns (q: nat)
    requires p <= end < a.Length && a[end] == Nul && a[p..end] == v && Nul !in v
    ensures p <= q <= end && q - p == ComponentLength(v)
  {
    q := p;
    assert v == v[0..];
    while a[q] != Nul && a[q] != '\\'
      invariant p <= q <= end && ComponentLength(v) == q - p + ComponentLength(v[q - p..])
      decreases end - q
    {
      assert a[q] == v[q - p];
      assert v[q - p..][1..] == v[q + 1 - p..];
      q := q + 1;
    }
    if q < end { assert a[q] == v[q - p]; }
  }

  lemma FlatPushed(pre: string, stack: seq<string>, c: string)
    ensures pre + Flat(stack + [c]) == pre + Flat(stack) + c + "\\"
  {
    var all := stack + [c];
    assert all[..|all| - 1] == stack;
  }

  /** Behind a name that is neither a dot nor two dots: remove its last dot, or step over the backslash
      (rtl/path.c:386-401). */
  method AfterName(a: array<char>, mark: nat, q: nat, end: nat, ghost pre: string, ghost stack: seq<string>,
      ghost c: string, ghost w: string)
    returns (p: nat, end': nat)
    requires |pre| == mark && c != "" && c != "." && c != ".."
    requires q == mark + |Flat(stack)| + |c| && q <= end < a.Length && a[end] == Nul
    requires a[..q] == pre + Flat(stack) + c && a[q..end] == "\\" + w
    modifies a
    ensures Placed(a, pre, Enter(stack, c), p, end', w) && end' <= end
    ensures forall i :: end < i < a.Length ==> a[i] == old(a[i])
  {
    ghost var f := pre + Flat(stack);
    p, end' := q, end;
    DotEnd(a, q, f, c);
    if p > mark && a[p - 1] == '.' {
      end' := Remove(a, p - 1, p, end, f + DropDot(c), "\\" + w);
      StepOver(a, p - 1, end', f + DropDot(c), w);
    } else {
      StepOver(a, p, end, f + DropDot(c), w);
      p := p + 1;
    }
    FlatPushed(pre, stack, DropDot(c));
  }

  lemma DotEnd(a: array<char>, q: nat, f: string, c: string)
    requires q <= a.Length && c != "" && a[..q] == f + c
    ensures if a[q - 1] == '.' then a[..q - 1] == f + DropDot(c) else c == DropDot(c)
  {
    assert a[q - 1] == a[..q][q - 1] == c[|c| - 1];
    assert a[..q - 1] == a[..q][..q - 1] == f + c[..|c| - 1];
  }

  /** The backslash at p goes to the text before p. */
  lemma StepOver(a: array<char>, p: nat, end: nat, f: string, w: string)
    requires p <= end < a.Length && a[..p] == f && a[p..end] == "\\" + w
    ensures p < end && a[..p + 1] == f + "\\" && a[p + 1..end] == w
  {
    assert a[p] == a[p..end][0];
    assert a[p + 1..end] == a[p..end][1..];
  }

  /** Remove the characters from p up to next. */
  method Remove(a: array<char>, p: nat, next: nat, end: nat, ghost f: string, ghost w: string) returns (end': nat)
    requires p <= next <= end < a.Length && a[end] == Nul && a[..p] == f && a[next..end] == w
    modifies a
    ensures end' == end - (next - p) && a[..p] == f && a[p..end'] == w && a[end'] == Nul
    ensures forall i :: end < i < a.Length ==> a[i] == old(a[i])
  {
    Move(a, p, next, end);
    end' := end - (next - p);
    Halves(a, p, end', f, w);
  }

  lemma Halves(a: array<char>, p: nat, end: nat, f: string, w: string)
    requires p <= end <= a.Length && |f| == p && a[..end] == f + w
    ensures a[..p] == f && a[p..end] == w
  {
    assert a[..p] == a[..end][..p] && a[p..end] == a[..end][p..];
  }

  /** The path ends at p. */
  method Finish(a: array<char>, p: nat, end: nat)
    requires p <= end < a.Length
    modifies a
    ensures a[p] == Nul && a[..p] == old(a[..p])
    ensures forall i :: end < i < a.Length ==> a[i] == old(a[i])
  {
    a[p] := Nul;
  }

  /** The text up to p is final. */
  ghost predicate Final(a: array<char>, pre: string, u: string, p: nat)
    reads a
  {
    p < a.Length && a[p] == Nul && a[..p] == pre + Ending(Walk([], Split(u).dirs), Split(u).last)
  }

  lemma CutTail(a: array<char>, q: nat, pre: string, t: string)
    requires q <= a.Length && a[..q] == pre + t
    ensures if q > |pre| then a[..q - 1] == pre + NoSlash(t) else pre == pre + NoSlash(t) == a[..q]
  {
    if t != "" { assert a[..q - 1] == a[..q][..q - 1] == pre + t[..|t| - 1]; }
  }

  /** Final . (rtl/path.c:344-348). */
  method FinalDot(a: array<char>, mark: nat, p: nat, end: nat, ghost pre: string, ghost stack: seq<string>,
      ghost u: string) returns (q: nat)
    requires |pre| == mark && Placed(a, pre, stack, p, end, ".") && Reading(stack, ".", u)
    modifies a
    ensures q <= p && Final(a, pre, u, q)
    ensures forall i :: end < i < a.Length ==> a[i] == old(a[i])
  {
    LastRead(stack, ".", u);
    q := p;
    CutTail(a, p, pre, Flat(stack));
    if p > mark { q := p - 1; }
    Finish(a, q, end);
  }

  /** Final .. (rtl/path.c:371-382). */
  method FinalDots(a: array<char>, mark: nat, p: nat, end: nat, ghost pre: string, ghost stack: seq<string>,
      ghost u: string) returns (q: nat)
    requires |pre| == mark && Placed(a, pre, stack, p, end, "..") && Reading(stack, "..", u)
    modifies a
    ensures q <= p && Final(a, pre, u, q)
    ensures forall i :: end < i < a.Length ==> a[i] == old(a[i])
  {
    LastRead(stack, "..", u);
    q := ScanBack(a, mark, p, pre, stack);
    CutTail(a, q, pre, Flat(Pop(stack)));
    if q > mark { q := q - 1; }
    Finish(a, q, end);
  }

  /** The component is neither a dot nor two dots. */
  predicate Ordinary(v: string)
    requires v != ""
  {
    v[0] == '.' ==> |v| > 1 && v[1] != '\\' && (v[1] == '.' ==> |v| > 2 && v[2] != '\\')
  }

  /** Any other component (rtl/path.c:386-401). */
  method OtherName(a: array<char>, mark: nat, p: nat, end: nat, ghost pre: string, ghost stack: seq<string>,
      ghost v: string, ghost u: string)
    returns (p': nat, end': nat, ghost stack': seq<string>, ghost v': string, ghost done: bool)
    requires |pre| == mark && Placed(a, pre, stack, p, end, v) && Reading(stack, v, u) && v != ""
    requires Ordinary(v)
    modifies a
    ensures if done then p' == end' <= end && Final(a, pre, u, p')
            else Placed(a, pre, stack', p', end', v') && Reading(stack', v', u) && end' <= end && |v'| < |v|
    ensures forall i :: end < i < a.Length ==> a[i] == old(a[i])
  {
    var q := ScanName(a, p, end, v);
    NotNul(a, p, q, end, v);
    done := a[q] == Nul;
    if a[q] == '\\' {
      p', end', stack', v' := InnerName(a, mark, p, q, end, pre, stack, v, u);
    } else {
      p', end', stack', v' := q, end, stack, v;
      Slices(a, p, q, end, pre + Flat(stack), v);
      LastName(a, pre, stack, q, v, u);
    }
  }

  /** The name c at p, the backslash at q, and the text w behind it. */
  lemma AtName(a: array<char>, p: nat, q: nat, end: nat, pre: string, stack: seq<string>, v: string, u: string)
      returns (c: string, w: string)
    requires Placed(a, pre, stack, p, end, v) && Reading(stack, v, u) && v != "" && Ordinary(v)
    requires p <= q < end && q - p == ComponentLength(v)
    ensures c != "" && c != "." && c != ".." && q == |pre| + |Flat(stack)| + |c| && |w| < |v|
    ensures a[..q] == pre + Flat(stack) + c && a[q..end] == "\\" + w && Reading(Enter(stack, c), w, u)
  {
    var n := ComponentLength(v);
    c, w := v[..n], v[n + 1..];
    FirstName(stack, v, u, n, c, w);
    Slices(a, p, q, end, pre + Flat(stack), v);
  }

  /** A component with a backslash behind it. */
  method InnerName(a: array<char>, mark: nat, p: nat, q: nat, end: nat, ghost pre: string, ghost stack: seq<string>,
      ghost v: string, ghost u: string)
    returns (p': nat, end': nat, ghost stack': seq<string>, ghost w: string)
    requires |pre| == mark && Placed(a, pre, stack, p, end, v) && Reading(stack, v, u) && v != "" && Ordinary(v)
    requires p <= q < end && q - p == ComponentLength(v)
    modifies a
    ensures Placed(a, pre, stack', p', end', w) && Reading(stack', w, u) && end' <= end && |w| < |v|
    ensures forall i :: end < i < a.Length ==> a[i] == old(a[i])
  {
    ghost var c;
    c, w := AtName(a, p, q, end, pre, stack, v, u);
    p', end' := AfterName(a, mark, q, end, pre, stack, c, w);
    stack' := Enter(stack, c);
  }

  lemma LastName(a: array<char>, pre: string, stack: seq<string>, q: nat, v: string, u: string)
    requires Reading(stack, v, u) && v != "" && Ordinary(v) && ComponentLength(v) == |v|
    requires q < a.Length && a[q] == Nul && a[..q] == pre + Flat(stack) + v[..|v|]
    ensures Final(a, pre, u, q)
  {
    assert v[..|v|] == v;
    Regroup(pre, Flat(stack), v);
    assert v != "." && v != "..";
    LastRead(stack, v, u);
  }

  lemma Slices(a: array<char>, p: nat, q: nat, end: nat, f: string, v: string)
    requires p <= q <= end < a.Length && a[..p] == f && a[p..end] == v && a[end] == Nul && Nul !in v
    ensures a[..q] == f + v[..q - p] && a[q..end] == v[q - p..] && a[..end] == f + v
    ensures if q < end then a[q] == v[q - p] else a[q] == Nul
    ensures a[q] == Nul <==> q == end
  {
    if q < end { assert a[q] == a[p..end][q - p]; }
  }

  lemma Onward(a: array<char>, p: nat, q: nat, end: nat, v: string)
    requires p <= end <= a.Length && a[p..end] == v && p <= q <= p + |v|
    ensures a[q..end] == v[q - p..]
  {
    assert a[q..end] == a[p..end][q - p..];
  }

  lemma FirstName(stack: seq<string>, v: string, u: string, n: nat, c: string, w: string)
    requires Reading(stack, v, u) && n == ComponentLength(v) < |v| && c == v[..n] && w == v[n + 1..] && Ordinary(v)
    ensures v[n..] == "\\" + w && c != "" && c != "." && c != ".." && Reading(Enter(stack, c), w, u)
  {
    NameText(v, n, c, w);
    NameOf(v, n);
    Entered(stack, v, u, c, w);
  }

  lemma NameText(v: string, n: nat, c: string, w: string)
    requires n < |v| && v[n] == '\\' && c == v[..n] && w == v[n + 1..]
    ensures v == c + ("\\" + w) && v[n..] == "\\" + w
  {
  }

  lemma DotsFirst(v: string)
    ensures |v| > 1 && v[0] == '.' && v[1] == '\\' ==> v == "." + ("\\" + v[2..])
    ensures |v| > 2 && v[0] == '.' && v[1] == '.' && v[2] == '\\' ==> v == ".." + ("\\" + v[3..])
  {
  }

  /** .\ component (rtl/path.c:350-355). */
  method DotDir(a: array<char>, mark: nat, p: nat, end: nat, ghost pre: string, ghost stack: seq<string>,
      ghost v: string, ghost u: string)
    returns (end': nat, ghost w: string)
    requires |pre| == mark && Placed(a, pre, stack, p, end, v) && Reading(stack, v, u) && |v| > 1 && v[0] == '.'
        && v[1] == '\\'
    modifies a
    ensures Placed(a, pre, stack, p, end', w) && Reading(stack, w, u) && end' <= end && |w| < |v|
    ensures forall i :: end < i < a.Length ==> a[i] == old(a[i])
  {
    w := v[2..];
    DotsFirst(v);
    Entered(stack, v, u, ".", w);
    Onward(a, p, p + 2, end, v);
    end' := Remove(a, p, p + 2, end, pre + Flat(stack), w);
  }

  /** ..\ component (rtl/path.c:357-369). */
  method DotsDir(a: array<char>, mark: nat, p: nat, end: nat, ghost pre: string, ghost stack: seq<string>,
      ghost v: string, ghost u: string)
    returns (p': nat, end': nat, ghost w: string)
    requires |pre| == mark && Placed(a, pre, stack, p, end, v) && Reading(stack, v, u)
    requires |v| > 2 && v[0] == '.' && v[1] == '.' && v[2] == '\\'
    modifies a
    ensures Placed(a, pre, Pop(stack), p', end', w) && Reading(Pop(stack), w, u) && end' <= end && |w| < |v|
    ensures forall i :: end < i < a.Length ==> a[i] == old(a[i])
  {
    w := v[3..];
    DotsFirst(v);
    Entered(stack, v, u, "..", w);
    Onward(a, p, p + 3, end, v);
    p' := ScanBack(a, mark, p, pre, stack);
    end' := Remove(a, p', p + 3, end, pre + Flat(Pop(stack)), w);
  }

  method Step(a: array<char>, mark: nat, p: nat, end: nat, ghost pre: string, ghost stack: seq<string>,
      ghost v: string, ghost u: string)
    returns (p': nat, end': nat, ghost stack': seq<string>, ghost v': string, ghost done: bool)
    requires |pre| == mark && Placed(a, pre, stack, p, end, v) && Reading(stack, v, u) && v != ""
    modifies a
    ensures if done then p' == end' <= end && Final(a, pre, u, p')
            else Placed(a, pre, stack', p', end', v') && Reading(stack', v', u) && end' <= end && |v'| < |v|
    ensures forall i :: end < i < a.Length ==> a[i] == old(a[i])
  {
    stack', v', done := stack, v, true;
    NotNul(a, p, p, end, v);
    if a[p] == '.' {
      NotNul(a, p, p + 1, end, v);
      if a[p + 1] == Nul {
        assert v == ".";
        p' := FinalDot(a, mark, p, end, pre, stack, u);
        end' := p';
        return;
      } else if a[p + 1] == '\\' {
        p', done := p, false;
        end', v' := DotDir(a, mark, p, end, pre, stack, v, u);
        return;
      } else if a[p + 1] == '.' {
        NotNul(a, p, p + 2, end, v);
        if a[p + 2] == '\\' {
          stack', done := Pop(stack), false;
          p', end', v' := DotsDir(a, mark, p, end, pre, stack, v, u);
          return;
        } else if a[p + 2] == Nul {
          assert v == "..";
          p' := FinalDots(a, mark, p, end, pre, stack, u);
          end' := p';
          return;
        }
      }
    }
    p', end', stack', v', done := OtherName(a, mark, p, end, pre, stack, v, u);
  }

  /** Remove the . and .. components (rtl/path.c:338-402). */
  method ResolveDots(a: array<char>, mark: nat, end0: nat, ghost pre: string, ghost u: string) returns (p: nat)
    requires |pre| == mark && Holds(a, end0, pre + u) && Single(u) && '/' !in u
    modifies a
    ensures p <= end0 && Final(a, pre, u, p)
    ensures forall i :: end0 < i < a.Length ==> a[i] == old(a[i])
  {
    var end := end0;
    ghost var stack, v, done := [], u, false;
    p := mark;
    while a[p] != Nul
      invariant p <= end <= end0 < a.Length
      invariant if done then p == end && Final(a, pre, u, p)
          else Placed(a, pre, stack, p, end, v) && Reading(stack, v, u)
      invariant forall i :: end0 < i < a.Length ==> a[i] == old(a[i])
      decreases if done then 0 else 1 + |v|
    {
      p, end, stack, v, done := Step(a, mark, p, end, pre, stack, v, u);
    }
    if !done {
      NotNul(a, p, p, end, v);
      LastRead(stack, v, u);
    }
  }

  /** Remove trailing separators (rtl/path.c:405-408). */
  method TrimSlashes(a: array<char>, mark: nat, end: nat, ghost pre: string, ghost t: string) returns (p: nat)
    requires |pre| == mark <= end <= a.Length && a[..end] == pre + t && NoSlashes(t)
    ensures mark <= p <= end && t[..p - mark] == TrimSeparators(t)
  {
    p := end;
    assert t == t[..end - mark];
    while p > mark && IsSeparator(a[p - 1])
      invariant mark <= p <= end && TrimSeparators(t[..p - mark]) == TrimSeparators(t)
      decreases p
    {
      assert a[p - 1] == a[..end][p - 1] == t[p - mark - 1];
      assert t[..p - mark][..p - mark - 1] == t[..p - mark - 1];
      p := p - 1;
    }
    if p > mark { assert a[p - 1] == a[..end][p - 1] == t[p - mark - 1]; }
    TrimIs(t[..p - mark]);
  }

  predicate NoSlashes(t: string) {
    forall i :: 0 <= i < |t| ==> t[i] != '/'
  }

  /** Remove trailing separators if wanted, then trailing spaces and dots (rtl/path.c:404-411). */
  method Trim(a: array<char>, mark: nat, end: nat, skip: bool, ghost pre: string, ghost t: string) returns (p: nat)
    requires 0 < mark <= end <= a.Length && |pre| == mark && pre[mark - 1] == '\\' && a[..end] == pre + t
        && NoSlashes(t)
    ensures mark <= p <= end && a[..p] == pre + TrimDots(if skip then TrimSeparators(t) else t)
  {
    p := end;
    if skip { p := TrimSlashes(a, mark, end, pre, t); } else { assert t == t[..end - mark]; }
    ghost var k := t[..p - mark];
    while p > 0 && (a[p - 1] == ' ' || a[p - 1] == '.')
      invariant mark <= p <= end && TrimDots(t[..p - mark]) == TrimDots(k)
      decreases p
    {
      AtMark(a, end, pre, t, p);
      DotGone(t, p - mark);
      p := p - 1;
    }
    AtMark(a, end, pre, t, p);
    Trimmed(a, p, end, pre, t, k);
  }

  lemma AtMark(a: array<char>, end: nat, pre: string, t: string, p: nat)
    requires 0 < |pre| <= p <= end <= a.Length && a[..end] == pre + t && pre[|pre| - 1] == '\\'
    ensures if p == |pre| then a[p - 1] == '\\' else a[p - 1] == t[p - |pre| - 1]
  {
    assert a[p - 1] == a[..end][p - 1];
  }

  lemma DotGone(t: string, n: nat)
    requires 0 < n <= |t| && t[n - 1] in " ."
    ensures TrimDots(t[..n]) == TrimDots(t[..n - 1])
  {
    assert t[..n][..n - 1] == t[..n - 1];
  }

  lemma Trimmed(a: array<char>, p: nat, end: nat, pre: string, t: string, k: string)
    requires |pre| <= p <= end <= a.Length && a[..end] == pre + t
    requires var r := t[..p - |pre|]; TrimDots(r) == TrimDots(k) && (r == "" || r[|r| - 1] !in " .")
    ensures a[..p] == pre + TrimDots(k)
  {
    Upto(a, p, end, pre, t);
    TrimIs(t[..p - |pre|]);
  }

  lemma Upto(a: array<char>, p: nat, end: nat, pre: string, t: string)
    requires |pre| <= p <= end <= a.Length && a[..end] == pre + t
    ensures a[..p] == pre + t[..p - |pre|]
  {
    assert a[..p] == a[..end][..p];
  }

  /** RtlZeroMemory. */
  method Zero(a: array<char>, from: nat, to: nat)
    requires from <= to < a.Length
    modifies a
    ensures a[..from] == old(a[..from])
    ensures forall i :: from <= i <= to ==> a[i] == Nul
    ensures forall i :: to < i < a.Length ==> a[i] == old(a[i])
  {
    forall i | from <= i <= to { a[i] := Nul; }
  }

  /** RtlpCollapsePath: the length of the path in characters; the rest of the old path becomes zeros. */
  method CollapsePath(a: array<char>, mark: nat, skip: bool, ghost s: string) returns (length: nat)
    requires Holds(a, |s|, s) && Marked(s, mark)
    modifies a
    ensures length <= |s| && a[..length] == Collapsed(s, mark, skip)
    ensures forall i :: length <= i <= |s| ==> a[i] == Nul
    ensures forall i :: |s| < i < a.Length ==> a[i] == old(a[i])
  {
    ghost var pre, u := Slashed(s)[..mark], Slashed(s)[mark..];
    assert pre == Slashed(s[..mark]) && u == Slashed(s[mark..]);
    var endBuffer := Length(a, s);
    ConvertSlashes(a, s);
    SlashedIs(s);
    var end := Squeeze(a, mark, Slashed(s));
    ghost var w := Squeezed(u, '\\');
    SqueezedSingle(u, '\\');
    SqueezedSplit(u);
    SqueezedHas(u, '\\', '/');
    var p := ResolveDots(a, mark, end, pre, w);
    UntrimmedSlashes(u);
    length := Trim(a, mark, p, skip, pre, Untrimmed(u));
    Zero(a, length, endBuffer);
  }
}
