/** What collapsing a path means (rtl/path.c:306-420). */
module PathText {

  // The components of a path are resolved on a stack.

  predicate IsSeparator(c: char) {
    c == '\\' || c == '/'
  }

  /** Slashes become backslashes. */
  function Slashed(s: string): (r: string)
    ensures |r| == |s| && forall i :: 0 <= i < |s| ==> r[i] == if s[i] == '/' then '\\' else s[i]
  {
    seq(|s|, i requires 0 <= i < |s| => if s[i] == '/' then '\\' else s[i])
  }

  /** How many characters come before the first backslash. */
  function ComponentLength(v: string): (n: nat)
    ensures n <= |v| && (forall i :: 0 <= i < n ==> v[i] != '\\') && (n < |v| ==> v[n] == '\\')
  {
    if v == "" || v[0] == '\\' then 0 else 1 + ComponentLength(v[1..])
  }

  /** The components that a backslash ends, without the empty ones, and what follows the last backslash. */
  datatype Parts = Parts(dirs: seq<string>, last: string)

  function Split(v: string): (r: Parts)
    decreases |v|
  {
    var n := ComponentLength(v);
    if n == |v| then Parts([], v)
    else
      var rest := Split(v[n + 1..]);
      Parts((if n == 0 then [] else [v[..n]]) + rest.dirs, rest.last)
  }

  predicate IsName(c: string) {
    c != "" && NoSeparator(c)
  }

  predicate NoSeparator(c: string) {
    forall i :: 0 <= i < |c| ==> !IsSeparator(c[i])
  }

  predicate Proper(dirs: seq<string>) {
    forall i {:trigger dirs[i]} :: 0 <= i < |dirs| ==> IsName(dirs[i])
  }

  /** The components, each followed by a backslash. */
  function Flat(dirs: seq<string>): (r: string) {
    if dirs == [] then "" else Flat(dirs[..|dirs| - 1]) + (dirs[|dirs| - 1] + "\\")
  }

  function DropDot(c: string): string {
    if c != "" && c[|c| - 1] == '.' then c[..|c| - 1] else c
  }

  function Pop(stack: seq<string>): seq<string> {
    if stack == [] then [] else stack[..|stack| - 1]
  }

  /** A component that a backslash ends: a dot stays, two dots go up but not past the mark, and any other
      name is entered, without one dot at its end. */
  function Enter(stack: seq<string>, c: string): seq<string> {
    if c == "." then stack else if c == ".." then Pop(stack) else stack + [DropDot(c)]
  }

  function Walk(stack: seq<string>, dirs: seq<string>): seq<string>
    decreases |dirs|
  {
    if dirs == [] then stack else Walk(Enter(stack, dirs[0]), dirs[1..])
  }

  function NoSlash(t: string): string {
    if t == "" then "" else t[..|t| - 1]
  }

  /** What the last component does. */
  function Ending(stack: seq<string>, last: string): string {
    if last == "." then NoSlash(Flat(stack)) else if last == ".." then NoSlash(Flat(Pop(stack))) else Flat(stack) + last
  }

  function TrimSeparators(t: string): (r: string)
    ensures |r| <= |t| && r == t[..|r|] && (r == "" || r[|r| - 1] != '\\')
  {
    if t != "" && t[|t| - 1] == '\\' then TrimSeparators(t[..|t| - 1]) else t
  }

  function TrimDots(t: string): (r: string)
    ensures |r| <= |t| && r == t[..|r|] && (r == "" || r[|r| - 1] !in " .")
  {
    if t != "" && t[|t| - 1] in " ." then TrimDots(t[..|t| - 1]) else t
  }

  function Untrimmed(v: string): string {
    Ending(Walk([], Split(v).dirs), Split(v).last)
  }

  /** What becomes of the path behind the mark. */
  function Body(v: string, skip: bool): string {
    TrimDots(if skip then TrimSeparators(Untrimmed(v)) else Untrimmed(v))
  }

  /** A mark lies just behind a separator. */
  predicate Marked(s: string, mark: nat) {
    0 < mark <= |s| && IsSeparator(s[mark - 1])
  }

  function Collapsed(s: string, mark: nat, skip: bool): (r: string)
    requires Marked(s, mark)
  {
    Slashed(s[..mark]) + Body(Slashed(s[mark..]), skip)
  }

  // ----- splitting

  lemma {:induction false} SplitProper(v: string)
    requires '/' !in v
    ensures Proper(Split(v).dirs) && NoSeparator(Split(v).last)
    decreases |v|
  {
    var n := ComponentLength(v);
    NameOf(v, n);
    if n < |v| {
      var w := v[n + 1..];
      SplitProper(w);
      SplitOnce(v, n, w);
    } else {
      assert v[..n] == v;
    }
  }

  lemma {:induction false} SplitLength(v: string)
    ensures |Flat(Split(v).dirs)| + |Split(v).last| <= |v|
    decreases |v|
  {
    var n := ComponentLength(v);
    if n < |v| {
      var w := v[n + 1..];
      SplitLength(w);
      FlatFront(v[..n], Split(w).dirs);
      SplitOnce(v, n, w);
      assert [] + Split(w).dirs == Split(w).dirs;
    }
  }

  lemma SplitOnce(v: string, n: nat, w: string)
    requires n == ComponentLength(v) < |v| && w == v[n + 1..]
    ensures Split(v) == Parts((if n == 0 then [] else [v[..n]]) + Split(w).dirs, Split(w).last)
  {
  }

  lemma NameOf(v: string, n: nat)
    requires '/' !in v && n == ComponentLength(v)
    ensures NoSeparator(v[..n])
  {
    forall i | 0 <= i < n ensures !IsSeparator(v[..n][i]) { assert v[..n][i] == v[i] && v[i] in v; }
  }

  lemma {:induction false} LengthIs(c: string, w: string)
    requires (forall i :: 0 <= i < |c| ==> c[i] != '\\') && (w != "" ==> w[0] == '\\')
    ensures ComponentLength(c + w) == |c|
    decreases |c|
  {
    if c != "" {
      assert (c + w)[1..] == c[1..] + w;
      LengthIs(c[1..], w);
    }
  }

  /** A name in front. */
  lemma SplitName(c: string, w: string)
    requires IsName(c)
    ensures Split(c + "\\" + w) == Parts([c] + Split(w).dirs, Split(w).last)
  {
    var v := c + ("\\" + w);
    assert c + "\\" + w == v;
    LengthIs(c, "\\" + w);
    assert v[..|c|] == c && v[|c| + 1..] == w;
  }

  lemma {:induction false} FlatFront(c: string, dirs: seq<string>)
    ensures Flat([c] + dirs) == c + "\\" + Flat(dirs)
    decreases |dirs|
  {
    var all := [c] + dirs;
    if dirs == [] {
      assert all[..|all| - 1] == [];
    } else {
      var k := |dirs| - 1;
      FlatFront(c, dirs[..k]);
      assert all[..|all| - 1] == [c] + dirs[..k];
      assert all[|all| - 1] == dirs[k];
    }
  }

  /** What has been put together splits again. */
  lemma {:induction false} SplitFlat(dirs: seq<string>, last: string)
    requires Proper(dirs) && NoSeparator(last)
    ensures Split(Flat(dirs) + last) == Parts(dirs, last)
    decreases |dirs|
  {
    if dirs == [] {
      LengthIs(last, "");
      assert last + "" == last;
    } else {
      var c, rest := dirs[0], dirs[1..];
      assert dirs == [c] + rest;
      FlatFront(c, rest);
      SplitFlat(rest, last);
      SplitName(c, Flat(rest) + last);
      Regroup(c + "\\", Flat(rest), last);
    }
  }

  lemma Regroup(a: string, b: string, c: string)
    ensures a + b + c == a + (b + c)
  {
  }

  lemma {:induction false} WalkProper(stack: seq<string>, dirs: seq<string>)
    requires Proper(stack) && Proper(dirs)
    ensures Proper(Walk(stack, dirs))
    decreases |dirs|
  {
    if dirs != [] {
      EnterProper(stack, dirs[0]);
      WalkProper(Enter(stack, dirs[0]), dirs[1..]);
    }
  }

  lemma EnterProper(stack: seq<string>, c: string)
    requires Proper(stack) && IsName(c)
    ensures Proper(Enter(stack, c))
  {
  }

  // ----- a second application

  predicate EndsInDot(c: string) {
    c != "" && c[|c| - 1] == '.'
  }

  /** No component that a backslash ends ends in a dot, and no separator is left at the end where none is
      wanted. */
  predicate Settled(b: string, skip: bool) {
    NoDots(Split(b).dirs) && (skip && b != "" ==> b[|b| - 1] != '\\')
  }

  predicate NoDots(dirs: seq<string>) {
    forall i {:trigger dirs[i]} :: 0 <= i < |dirs| ==> !EndsInDot(dirs[i])
  }

  lemma {:induction false} WalkPlain(stack: seq<string>, dirs: seq<string>)
    requires NoDots(dirs)
    ensures Walk(stack, dirs) == stack + dirs
    decreases |dirs|
  {
    if dirs != [] {
      assert !EndsInDot(dirs[0]);
      WalkPlain(stack + [dirs[0]], dirs[1..]);
      assert stack + [dirs[0]] + dirs[1..] == stack + dirs;
    }
  }

  lemma EnterLength(stack: seq<string>, c: string)
    requires IsName(c)
    ensures |Flat(Enter(stack, c))| <= |Flat(stack)| + |c| + 1
    ensures EndsInDot(c) ==> |Flat(Enter(stack, c))| < |Flat(stack)| + |c| + 1
  {
    if c != "." && c != ".." {
      var next := stack + [DropDot(c)];
      assert next[..|next| - 1] == stack;
    }
  }

  /** Walking never makes the text longer, and a dot before a backslash makes it shorter. */
  lemma {:induction false} WalkLength(stack: seq<string>, dirs: seq<string>)
    requires Proper(dirs)
    ensures |Flat(Walk(stack, dirs))| <= |Flat(stack)| + |Flat(dirs)|
    ensures !NoDots(dirs) ==> |Flat(Walk(stack, dirs))| < |Flat(stack)| + |Flat(dirs)|
    decreases |dirs|
  {
    if dirs != [] {
      var c, rest := dirs[0], dirs[1..];
      assert dirs == [c] + rest;
      FlatFront(c, rest);
      EnterLength(stack, c);
      WalkLength(Enter(stack, c), rest);
      if NoDots(rest) && !EndsInDot(c) {
        forall i | 0 <= i < |dirs| ensures !EndsInDot(dirs[i]) {
          if i > 0 { assert dirs[i] == rest[i - 1]; }
        }
      }
    }
  }

  lemma EndingLength(stack: seq<string>, last: string)
    ensures |Ending(stack, last)| <= |Flat(stack)| + |last|
  {
  }

  predicate Shaped(b: string, p: Parts) {
    && Proper(p.dirs) && NoSeparator(p.last) && b == Flat(p.dirs) + p.last
  }

  /** The stack without the last backslash. */
  function Cut(stack: seq<string>): Parts {
    if stack == [] then Parts([], "") else Parts(stack[..|stack| - 1], stack[|stack| - 1])
  }

  lemma CutShaped(stack: seq<string>)
    requires Proper(stack)
    ensures Shaped(NoSlash(Flat(stack)), Cut(stack))
  {
    if stack != [] {
      var k := |stack| - 1;
      assert Flat(stack) == Flat(stack[..k]) + stack[k] + "\\";
      assert NoSlash(Flat(stack)) == Flat(stack[..k]) + stack[k];
    }
  }

  function EndingParts(stack: seq<string>, last: string): Parts {
    if last == "." then Cut(stack) else if last == ".." then Cut(Pop(stack)) else Parts(stack, last)
  }

  lemma EndingShaped(stack: seq<string>, last: string)
    requires Proper(stack) && NoSeparator(last)
    ensures Shaped(Ending(stack, last), EndingParts(stack, last))
  {
    if last == "." { CutShaped(stack); } else if last == ".." { CutShaped(Pop(stack)); }
  }

  lemma SeparatorsShaped(b: string, p: Parts)
    requires Shaped(b, p)
    ensures Shaped(TrimSeparators(b), if p.last == "" then Cut(p.dirs) else p)
  {
    if p.last == "" {
      CutShaped(p.dirs);
      assert b == Flat(p.dirs);
      if p.dirs != [] {
        var c := p.dirs[|p.dirs| - 1];
        assert b[|b| - 1] == '\\';
        assert NoSlash(b)[|b| - 2] == c[|c| - 1];
        assert TrimSeparators(b) == TrimSeparators(NoSlash(b)) == NoSlash(b);
      }
    } else {
      assert b[|b| - 1] == p.last[|p.last| - 1];
    }
  }

  /** Dots and spaces go from the last component only. */
  lemma {:induction false} DotsTrimmed(front: string, last: string)
    requires front == "" || front[|front| - 1] == '\\'
    ensures TrimDots(front + last) == front + TrimDots(last)
    decreases |last|
  {
    var t := front + last;
    if last == "" {
      assert t == front;
    } else if last[|last| - 1] in " ." {
      assert t[..|t| - 1] == front + last[..|last| - 1];
      DotsTrimmed(front, last[..|last| - 1]);
    }
  }

  lemma FlatEnd(dirs: seq<string>)
    ensures Flat(dirs) == "" || Flat(dirs)[|Flat(dirs)| - 1] == '\\'
  {
  }

  /** The components that are left, before dots and spaces are trimmed at the end. */
  function BodyParts(v: string, skip: bool): Parts {
    LeftParts(Walk([], Split(v).dirs), Split(v).last, skip)
  }

  function LeftParts(stack: seq<string>, last: string, skip: bool): Parts {
    var q := EndingParts(stack, last);
    if skip && q.last == "" then Cut(q.dirs) else q
  }

  function Left(stack: seq<string>, last: string, skip: bool): string {
    TrimDots(if skip then TrimSeparators(Ending(stack, last)) else Ending(stack, last))
  }

  lemma LeftShape(stack: seq<string>, last: string, skip: bool)
    requires Proper(stack) && NoSeparator(last)
    ensures
      var b, q := Left(stack, last, skip), LeftParts(stack, last, skip);
      && Proper(q.dirs) && NoSeparator(q.last) && b == Flat(q.dirs) + TrimDots(q.last)
      && Split(b) == Parts(q.dirs, TrimDots(q.last))
  {
    EndingShaped(stack, last);
    var t, q := Ending(stack, last), EndingParts(stack, last);
    SeparatorsShaped(t, q);
    if skip { t, q := TrimSeparators(t), if q.last == "" then Cut(q.dirs) else q; }
    FlatEnd(q.dirs);
    DotsTrimmed(Flat(q.dirs), q.last);
    SplitFlat(q.dirs, TrimDots(q.last));
  }

  /** The parts of every result: proper names, and a last component that no dot and no space ends. */
  lemma BodyShape(v: string, skip: bool)
    requires '/' !in v
    ensures '/' !in Body(v, skip) && |Body(v, skip)| <= |v|
    ensures
      var b := Body(v, skip);
      var q := BodyParts(v, skip);
      && Shaped(b, Split(b)) && TrimDots(Split(b).last) == Split(b).last
      && Proper(q.dirs) && b == Flat(q.dirs) + TrimDots(q.last) && Split(b) == Parts(q.dirs, TrimDots(q.last))
  {
    var p := Split(v);
    SplitProper(v);
    SplitLength(v);
    WalkProper([], p.dirs);
    var stack := Walk([], p.dirs);
    LeftShape(stack, p.last, skip);
    var q := LeftParts(stack, p.last, skip);
    TrimIs(TrimDots(q.last));
    FlatSlashes(q.dirs);
    WalkLength([], p.dirs);
    EndingLength(stack, p.last);
  }

  lemma {:induction false} FlatSlashes(dirs: seq<string>)
    requires Proper(dirs)
    ensures '/' !in Flat(dirs)
    decreases |dirs|
  {
    if dirs != [] { FlatSlashes(dirs[..|dirs| - 1]); }
  }

  lemma UntrimmedSlashes(v: string)
    requires '/' !in v
    ensures '/' !in Untrimmed(v)
  {
    var p := Split(v);
    SplitProper(v);
    WalkProper([], p.dirs);
    var stack := Walk([], p.dirs);
    EndingShaped(stack, p.last);
    FlatSlashes(EndingParts(stack, p.last).dirs);
  }

  lemma TrimIs(t: string)
    ensures TrimDots(t) == t <==> t == "" || t[|t| - 1] !in " ."
    ensures TrimSeparators(t) == t <==> t == "" || t[|t| - 1] != '\\'
  {
  }

  /** A result changes again exactly when a dot is left before a backslash, or a separator at the end that
      was to be skipped. */
  lemma BodyAgain(b: string, skip: bool)
    requires Shaped(b, Split(b)) && TrimDots(Split(b).last) == Split(b).last
    ensures Body(b, skip) == b <==> Settled(b, skip)
    ensures |Body(b, skip)| <= |b|
  {
    var p := Split(b);
    var stack := Walk([], p.dirs);
    WalkLength([], p.dirs);
    EndingLength(stack, p.last);
    TrimIs(p.last);
    TrimIs(b);
    if NoDots(p.dirs) {
      WalkPlain([], p.dirs);
      assert stack == p.dirs;
      assert Untrimmed(b) == b;
      FlatEnd(p.dirs);
      DotsTrimmed(Flat(p.dirs), p.last);
    }
  }

  lemma SlashedIs(s: string)
    ensures '/' !in Slashed(s) && ('/' !in s ==> Slashed(s) == s)
  {
    forall i | 0 <= i < |s| ensures Slashed(s)[i] != '/' {}
  }

  /** Collapsing again changes nothing exactly when the result is settled; it never makes a path longer. */
  lemma SettledAgain(s: string, mark: nat, skip: bool)
    requires Marked(s, mark)
    ensures
      var r := Collapsed(s, mark, skip);
      Marked(r, mark) && |r| <= |s| && (Collapsed(r, mark, skip) == r <==> Settled(r[mark..], skip))
  {
    var pre, v := Slashed(s[..mark]), Slashed(s[mark..]);
    var b := Body(v, skip);
    var r := Collapsed(s, mark, skip);
    SlashedIs(s[..mark]);
    SlashedIs(s[mark..]);
    assert r == pre + b;
    assert r[..mark] == pre && r[mark..] == b;
    BodyShape(v, skip);
    BodyAgain(b, skip);
    SlashedIs(pre);
    SlashedIs(b);
  }

  predicate EndsInTwoDots(c: string) {
    |c| >= 2 && c[|c| - 1] == '.' && c[|c| - 2] == '.'
  }

  /** The components of the path that remain: those that keep a backslash behind them, and the final one. */
  function Kept(p: Parts, skip: bool): Parts {
    KeptOf(Resolve([], p.dirs), p.last, skip)
  }

  function KeptOf(names: seq<string>, last: string, skip: bool): Parts {
    if last == "." || (last == "" && skip) then Cut(names) else if last == ".." then Cut(Pop(names))
        else Parts(names, last)
  }

  /** No remaining component but the final one ends in two dots; and when separators at the end are skipped,
      the final one, if others remain, is not all dots and spaces. */
  predicate Steady(p: Parts, skip: bool) {
    var k := Kept(p, skip);
    && (forall i {:trigger k.dirs[i]} :: 0 <= i < |k.dirs| ==> !EndsInTwoDots(k.dirs[i]))
    && (skip && k.dirs != [] ==> TrimDots(k.last) != "")
  }

  /** The components, each without one dot at its end. */
  function WithoutDots(names: seq<string>): (r: seq<string>)
    ensures |r| == |names| && forall i {:trigger r[i]} :: 0 <= i < |r| ==> r[i] == DropDot(names[i])
  {
    seq(|names|, i requires 0 <= i < |names| => DropDot(names[i]))
  }

  /** The stack holds the components that are reached, each without one dot. */
  lemma {:induction false} WalkIsResolve(stack: seq<string>, names: seq<string>, dirs: seq<string>)
    requires stack == WithoutDots(names)
    ensures Walk(stack, dirs) == WithoutDots(Resolve(names, dirs))
    decreases |dirs|
  {
    if dirs != [] {
      var c := dirs[0];
      var next := if c == "." then names else if c == ".." then Pop(names) else names + [c];
      assert Enter(stack, c) == WithoutDots(next);
      WalkIsResolve(Enter(stack, c), next, dirs[1..]);
    }
  }

  lemma CutWithoutDots(names: seq<string>)
    ensures Cut(WithoutDots(names)).dirs == WithoutDots(Cut(names).dirs)
    ensures Cut(WithoutDots(names)).last == DropDot(Cut(names).last)
  {
  }

  lemma DropTrim(c: string)
    ensures TrimDots(DropDot(c)) == TrimDots(c) && (DropDot(c) == "" ==> c == "" || c == ".")
    ensures c != "" ==> (EndsInDot(DropDot(c)) <==> EndsInTwoDots(c))
  {
  }

  lemma {:induction false} ResolveProper(stack: seq<string>, dirs: seq<string>)
    requires Proper(stack) && Proper(dirs) && "." !in stack
    ensures Proper(Resolve(stack, dirs)) && "." !in Resolve(stack, dirs)
    decreases |dirs|
  {
    if dirs != [] {
      var c := dirs[0];
      ResolveProper(if c == "." then stack else if c == ".." then Pop(stack) else stack + [c], dirs[1..]);
    }
  }

  /** What is left, in terms of the components of the path. */
  lemma BodyKept(v: string, skip: bool)
    requires '/' !in v
    ensures
      var q, k := BodyParts(v, skip), Kept(Split(v), skip);
      && q.dirs == WithoutDots(k.dirs) && TrimDots(q.last) == TrimDots(k.last) && Proper(k.dirs)
  {
    var p := Split(v);
    SplitProper(v);
    ResolveProper([], p.dirs);
    var names := Resolve([], p.dirs);
    WalkIsResolve([], [], p.dirs);
    LeftKept(Walk([], p.dirs), names, p.last, skip);
  }

  lemma LeftKept(stack: seq<string>, names: seq<string>, last: string, skip: bool)
    requires stack == WithoutDots(names) && Proper(names) && "." !in names
    requires last != "." && last != ".." ==> NoSeparator(last)
    ensures
      var q, k := LeftParts(stack, last, skip), KeptOf(names, last, skip);
      && q.dirs == WithoutDots(k.dirs) && TrimDots(q.last) == TrimDots(k.last) && Proper(k.dirs)
  {
    if last == ".." {
      assert Pop(stack) == WithoutDots(Pop(names));
      CutKept(Pop(stack), Pop(names));
    } else {
      CutKept(stack, names);
    }
  }

  /** Cutting leaves an empty name only when nothing else is left. */
  lemma CutKept(stack: seq<string>, names: seq<string>)
    requires stack == WithoutDots(names) && Proper(names) && "." !in names
    ensures
      var q, k := Cut(stack), Cut(names);
      && (q.last == "" ==> q.dirs == [])
      && q.dirs == WithoutDots(k.dirs) && TrimDots(q.last) == TrimDots(k.last) && Proper(k.dirs)
  {
    CutWithoutDots(names);
    DropTrim(Cut(names).last);
    if names != [] { assert Cut(names).last in names && IsName(names[|names| - 1]); }
  }

  lemma BodySettles(v: string, skip: bool)
    requires '/' !in v
    ensures Settled(Body(v, skip), skip) <==> Steady(Split(v), skip)
  {
    var b, q, k := Body(v, skip), BodyParts(v, skip), Kept(Split(v), skip);
    BodyShape(v, skip);
    BodyKept(v, skip);
    NoDotsKept(q.dirs, k.dirs);
    FlatEnd(q.dirs);
    TrimIs(TrimDots(q.last));
    assert Flat(q.dirs) == "" <==> q.dirs == [];
    EndOf(Flat(q.dirs), TrimDots(q.last));
  }

  lemma NoDotsKept(dirs: seq<string>, names: seq<string>)
    requires Proper(names) && dirs == WithoutDots(names)
    ensures NoDots(dirs) <==> forall i {:trigger names[i]} :: 0 <= i < |names| ==> !EndsInTwoDots(names[i])
  {
    forall i | 0 <= i < |names| ensures EndsInDot(dirs[i]) <==> EndsInTwoDots(names[i]) {
      assert IsName(names[i]);
      DropTrim(names[i]);
    }
  }

  lemma EndOf(f: string, t: string)
    requires (f == "" || f[|f| - 1] == '\\') && (t == "" || t[|t| - 1] != '\\')
    ensures f + t != "" && (f + t)[|f + t| - 1] == '\\' <==> f != "" && t == ""
  {
  }

  /** Collapsing again changes nothing exactly when, of the components that remain, none but the final one
      ends in two dots, and trimming the final one does not uncover a separator that was to be skipped. */
  lemma CollapseAgain(s: string, mark: nat, skip: bool)
    requires Marked(s, mark)
    ensures
      var r := Collapsed(s, mark, skip);
      Marked(r, mark) && |r| <= |s| && (Collapsed(r, mark, skip) == r <==> Steady(Split(Slashed(s[mark..])), skip))
  {
    SlashedIs(s[mark..]);
    SettledAgain(s, mark, skip);
    BehindMark(s, mark, skip);
    BodySettles(Slashed(s[mark..]), skip);
  }

  lemma WalkTwo(a: string, c: string)
    ensures Walk([], [a, c]) == Enter(Enter([], a), c)
  {
    assert [a, c][1..] == [c] && [c][1..] == [];
    assert Walk(Enter([], a), [c]) == Walk(Enter(Enter([], a), c), []);
  }

  /** The path a, c, b, where c is a directory. */
  lemma TwoNamesBody(a: string, c: string, b: string)
    requires IsName(a) && !EndsInDot(a) && IsName(c) && IsName(b) && TidyName(b)
    ensures Body(Flat([a, c]) + b, false) == Flat(Enter([a], c)) + b
  {
    WalkTwo(a, c);
    SplitFlat([a, c], b);
    assert [] + [a] == [a];
    assert b != "." && b != "..";
    EndPlain(Flat(Enter([a], c)), b);
  }

  lemma EndPlain(f: string, b: string)
    requires b != "" && TidyName(b)
    ensures TrimDots(f + b) == f + b
  {
    assert (f + b)[|f + b| - 1] == b[|b| - 1];
    TrimIs(f + b);
  }

  /** A name of three dots becomes two dots, which a second application takes for the directory above: not
      every path is settled after one application. */
  lemma CollapseAgainChanges(a: string, b: string)
    requires IsName(a) && !EndsInDot(a) && IsName(b) && TidyName(b)
    ensures Body(Flat([a, "..."]) + b, false) == Flat([a, ".."]) + b
    ensures Body(Flat([a, ".."]) + b, false) == b
    ensures Flat([a, ".."]) + b != b
  {
    TwoNamesBody(a, "...", b);
    TwoNamesBody(a, "..", b);
    assert DropDot("...") == "..";
    assert [a] + [".."] == [a, ".."];
    assert "" + b == b;
  }

  // ----- stack resolution

  /** A dot, two dots, or a name that ends neither in a dot nor in a space. */
  predicate Tidy(c: string) {
    c == "." || c == ".." || TidyName(c)
  }

  predicate TidyName(c: string) {
    c == "" || c[|c| - 1] !in " ."
  }

  predicate AllTidy(dirs: seq<string>) {
    forall i {:trigger dirs[i]} :: 0 <= i < |dirs| ==> Tidy(dirs[i])
  }

  predicate TidyNames(dirs: seq<string>) {
    forall i {:trigger dirs[i]} :: 0 <= i < |dirs| ==> TidyName(dirs[i])
  }

  /** The components that are reached. */
  function Resolve(stack: seq<string>, components: seq<string>): seq<string>
    decreases |components|
  {
    if components == [] then stack
    else
      var c := components[0];
      Resolve(if c == "." then stack else if c == ".." then Pop(stack) else stack + [c], components[1..])
  }

  function Components(p: Parts): seq<string> {
    p.dirs + if p.last == "" then [] else [p.last]
  }

  lemma {:induction false} WalkTidy(stack: seq<string>, dirs: seq<string>)
    requires TidyNames(stack) && AllTidy(dirs)
    ensures Walk(stack, dirs) == Resolve(stack, dirs) && TidyNames(Walk(stack, dirs))
    decreases |dirs|
  {
    if dirs != [] {
      var c := dirs[0];
      assert Tidy(c);
      EnterTidy(stack, c);
      WalkTidy(Enter(stack, c), dirs[1..]);
    }
  }

  lemma EnterTidy(stack: seq<string>, c: string)
    requires TidyNames(stack) && Tidy(c)
    ensures TidyNames(Enter(stack, c)) && (c != "." && c != ".." ==> Enter(stack, c) == stack + [c])
  {
  }

  lemma {:induction false} ResolveLast(stack: seq<string>, dirs: seq<string>, c: string)
    ensures Resolve(stack, dirs + [c]) == Resolve(Resolve(stack, dirs), [c])
    decreases |dirs|
  {
    if dirs == [] {
      assert dirs + [c] == [c];
    } else {
      assert (dirs + [c])[1..] == dirs[1..] + [c];
      var d := dirs[0];
      ResolveLast(if d == "." then stack else if d == ".." then Pop(stack) else stack + [d], dirs[1..], c);
    }
  }

  /** The last component is resolved like the others. */
  lemma EndingResolved(stack: seq<string>, last: string)
    requires Tidy(last)
    ensures var names := if last == "" then stack else Resolve(stack, [last]);
            Ending(stack, last) == if last == "" then Flat(names) else NoSlash(Flat(names))
  {
    if last != "" && last != "." && last != ".." {
      var all := stack + [last];
      assert all[..|all| - 1] == stack;
      assert Flat(all) == Flat(stack) + last + "\\";
    }
  }

  lemma LastTidy(stack: seq<string>, last: string)
    requires Proper(stack) && TidyNames(stack) && NoSeparator(last) && Tidy(last) && last != ""
    ensures Proper(Resolve(stack, [last])) && TidyNames(Resolve(stack, [last]))
  {
  }

  lemma TidyEnd(names: seq<string>)
    requires Proper(names) && TidyNames(names)
    ensures var t := NoSlash(Flat(names)); t == "" || (t[|t| - 1] != '\\' && t[|t| - 1] !in " .")
  {
    CutShaped(names);
    if names != [] {
      var c := names[|names| - 1];
      assert NoSlash(Flat(names)) == Flat(Cut(names).dirs) + c && TidyName(c) && IsName(c);
    }
  }

  lemma TidyTrims(names: seq<string>)
    requires Proper(names) && TidyNames(names)
    ensures var t := NoSlash(Flat(names));
            TrimSeparators(Flat(names)) == TrimSeparators(t) == t && TrimDots(t) == t
                && TrimDots(Flat(names)) == Flat(names)
  {
    var t := NoSlash(Flat(names));
    TidyEnd(names);
    FlatEnd(names);
    TrimIs(t);
    TrimIs(Flat(names));
  }

  lemma TidySettled(names: seq<string>)
    requires Proper(names) && TidyNames(names)
    ensures Settled(NoSlash(Flat(names)), true) && Settled(NoSlash(Flat(names)), false) && Settled(Flat(names), false)
  {
    var q := Cut(names);
    CutShaped(names);
    TidyEnd(names);
    SplitFlat(q.dirs, q.last);
    SplitFlat(names, "");
    assert Flat(names) + "" == Flat(names);
    assert NoDots(names) by {
      forall i | 0 <= i < |names| ensures !EndsInDot(names[i]) { assert TidyName(names[i]); }
    }
  }

  function Wanted(p: Parts, skip: bool): string {
    var names := Resolve([], Components(p));
    if p.last == "" && !skip then Flat(names) else NoSlash(Flat(names))
  }

  lemma BodyResolves(v: string, skip: bool)
    requires '/' !in v && AllTidy(Split(v).dirs) && Tidy(Split(v).last)
    ensures Body(v, skip) == Wanted(Split(v), skip) && Settled(Body(v, skip), skip)
  {
    var p := Split(v);
    SplitProper(v);
    WalkTidy([], p.dirs);
    WalkProper([], p.dirs);
    var stack := Walk([], p.dirs);
    var names := Resolve([], Components(p));
    if p.last == "" {
      assert Components(p) == p.dirs;
    } else {
      ResolveLast([], p.dirs, p.last);
      LastTidy(stack, p.last);
    }
    EndingResolved(stack, p.last);
    TidyTrims(names);
    TidySettled(names);
  }

  /** When every component is tidy, the result is the stack resolution of all components, joined with
      backslashes; a separator at the end stays unless it is to be skipped, and collapsing again changes
      nothing. */
  lemma CollapseResolves(s: string, mark: nat, skip: bool)
    requires Marked(s, mark)
    requires var p := Split(Slashed(s[mark..])); AllTidy(p.dirs) && Tidy(p.last)
    ensures
      var r := Collapsed(s, mark, skip);
      && r == Slashed(s[..mark]) + Wanted(Split(Slashed(s[mark..])), skip)
      && Marked(r, mark) && Collapsed(r, mark, skip) == r
  {
    var v := Slashed(s[mark..]);
    SlashedIs(s[mark..]);
    BodyResolves(v, skip);
    SettledAgain(s, mark, skip);
    BehindMark(s, mark, skip);
  }

  lemma BehindMark(s: string, mark: nat, skip: bool)
    requires Marked(s, mark)
    ensures Collapsed(s, mark, skip)[mark..] == Body(Slashed(s[mark..]), skip)
  {
  }
}
