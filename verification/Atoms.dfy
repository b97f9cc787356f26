/** Atoms and runs of calls (rtl/atom.c). */
module Atoms {
  import opened Ascii

  // ----- names

  /** Equal up to case: equal lengths, and _wcsicmp. */
  predicate SameName(a: string, b: string) {
    |a| == |b| && forall i {:trigger a[i]} {:trigger b[i]} :: 0 <= i < |a| ==> Lower(a[i]) == Lower(b[i])
  }

  /** RtlHashUnicodeString without case, HASH_STRING_ALGORITHM_X65599 (rtl/unicode.c:1727-1766). */
  function Hash(s: string): (h: nat) {
    if s == "" then 0 else (65599 * Hash(s[..|s| - 1]) + Upper(s[|s| - 1]) as int) % 0x1_0000_0000
  }

  /** The hash upcases letters and the comparison lowers them, yet equal names hash alike. */
  lemma HashAgrees(a: string, b: string)
    requires SameName(a, b)
    ensures Hash(a) == Hash(b)
  {
    HashAgreesBy(Lower, a, b);
  }

  /** Equal under another rule for lower case. */
  ghost predicate SameBy(lower: char -> char, a: string, b: string) {
    |a| == |b| && forall i {:trigger a[i]} {:trigger b[i]} :: 0 <= i < |a| ==> lower(a[i]) == lower(b[i])
  }

  ghost predicate HashRespects(lower: char -> char) {
    forall a, b {:trigger SameBy(lower, a, b)} :: SameBy(lower, a, b) ==> Hash(a) == Hash(b)
  }

  /** Whatever characters the comparison takes for equal, equal names hash alike exactly when no two
      characters are equal that upcasing the letters a to z keeps apart. The comparison of the table meets
      this as long as it folds ASCII letters only. */
  lemma HashAgreesExactly(lower: char -> char)
    ensures HashRespects(lower) <==> forall x, y :: lower(x) == lower(y) ==> Upper(x) == Upper(y)
  {
    if HashRespects(lower) {
      forall x, y | lower(x) == lower(y) ensures Upper(x) == Upper(y) {
        assert SameBy(lower, [x], [y]);
        OneCharacter(x);
        OneCharacter(y);
      }
    }
    if forall x, y :: lower(x) == lower(y) ==> Upper(x) == Upper(y) {
      forall a, b | SameBy(lower, a, b) ensures Hash(a) == Hash(b) { HashAgreesBy(lower, a, b); }
    }
  }

  lemma OneCharacter(x: char)
    ensures Hash([x]) == Upper(x) as int
  {
    assert [x][..0] == "";
    assert Hash("") == 0;
  }

  lemma {:induction false} HashAgreesBy(lower: char -> char, a: string, b: string)
    requires SameBy(lower, a, b) && forall x, y :: lower(x) == lower(y) ==> Upper(x) == Upper(y)
    ensures Hash(a) == Hash(b)
    decreases |a|
  {
    if a != "" {
      var n := |a| - 1;
      assert lower(a[n]) == lower(b[n]);
      assert forall i :: 0 <= i < n ==> a[..n][i] == a[i] && b[..n][i] == b[i];
      HashAgreesBy(lower, a[..n], b[..n]);
    }
  }

  lemma SameSymmetric(a: string, b: string)
    requires SameName(a, b)
    ensures SameName(b, a)
  {
  }

  lemma SameTransitive(a: string, b: string, c: string)
    requires SameName(a, b) && SameName(b, c)
    ensures SameName(a, c)
  {
    forall i | 0 <= i < |a| ensures Lower(a[i]) == Lower(c[i]) { assert Lower(b[i]) == Lower(c[i]); }
  }

  // ----- entries

  const MaxLength := 255
  const FirstAtom := 0xC000
  const LastAtom := 0xFFFF

  /** A string atom: its name, its 16-bit reference count, and whether it is pinned. */
  datatype Entry = Entry(name: string, refs: nat, pinned: bool)

  predicate IsAtom(a: int) {
    FirstAtom <= a <= LastAtom
  }

  ghost predicate Unique(m: map<int, Entry>) {
    forall a, b {:trigger m[a], m[b]} :: a in m && b in m && SameName(m[a].name, m[b].name) ==> a == b
  }

  /** Names are unique up to case and not empty; an entry that is not pinned is referred to. */
  ghost predicate Good(m: map<int, Entry>) {
    && Unique(m)
    && forall a {:trigger m[a]} :: a in m ==>
         IsAtom(a) && 0 < |m[a].name| <= MaxLength && m[a].refs < 0x1_0000 && (!m[a].pinned ==> m[a].refs > 0)
  }

  /** The first atom with this name, from a on, or -1. */
  ghost function FindFrom(m: map<int, Entry>, name: string, a: int): int
    decreases LastAtom - a
  {
    if a > LastAtom then -1 else if a in m && SameName(m[a].name, name) then a else FindFrom(m, name, a + 1)
  }

  ghost function Find(m: map<int, Entry>, name: string): int {
    FindFrom(m, name, FirstAtom)
  }

  lemma {:induction false} FindFromIs(m: map<int, Entry>, name: string, a: int)
    ensures
      var r := FindFrom(m, name, a);
      if r == -1 then forall b :: a <= b <= LastAtom && b in m ==> !SameName(m[b].name, name)
      else a <= r <= LastAtom && r in m && SameName(m[r].name, name)
    requires a >= 0
    decreases LastAtom - a
  {
    if a <= LastAtom && !(a in m && SameName(m[a].name, name)) { FindFromIs(m, name, a + 1); }
  }

  /** The atom with this name is the only one. */
  lemma FindIs(m: map<int, Entry>, name: string)
    requires Good(m)
    ensures Find(m, name) == -1 <==> forall b :: b in m ==> !SameName(m[b].name, name)
    ensures Find(m, name) != -1 ==> Find(m, name) in m && SameName(m[Find(m, name)].name, name)
    ensures forall a :: a in m && SameName(m[a].name, name) ==> Find(m, name) == a
  {
    FindFromIs(m, name, FirstAtom);
    var r := Find(m, name);
    if r != -1 {
      forall a | a in m && SameName(m[a].name, name) ensures a == r {
        SameSymmetric(m[a].name, name);
        SameTransitive(m[r].name, name, m[a].name);
      }
    }
  }

  // ----- calls

  /** A call, with the handle that the handle table would give to a new entry, or -1 when it cannot. */
  datatype Call = Add(name: string, handle: int) | Delete(atom: int) | Pin(atom: int) | Empty(deletePinned: bool)

  predicate Legal(m: map<int, Entry>, c: Call) {
    c.Add? ==> c.handle == -1 || (IsAtom(c.handle) && c.handle !in m)
  }

  /** One more reference; the count that overflows pins the atom (rtl/atom.c:344-351). */
  function Referenced(e: Entry): Entry {
    if e.pinned then e else if e.refs + 1 == 0x1_0000 then e.(refs := 0, pinned := true) else e.(refs := e.refs + 1)
  }

  predicate Storable(name: string) {
    0 < |name| <= MaxLength
  }

  /** The atoms that emptying the table removes. */
  function Goes(m: map<int, Entry>, deletePinned: bool): set<int> {
    set a | a in m && (deletePinned || !m[a].pinned)
  }

  ghost function After(m: map<int, Entry>, c: Call): map<int, Entry> {
    match c
    case Add(name, handle) =>
      var a := Find(m, name);
      if a in m then m[a := Referenced(m[a])]
      else if Storable(name) && handle != -1 then m[handle := Entry(name, 1, false)]
      else m
    case Delete(a) =>
      if a !in m || m[a].pinned then m
      else if m[a].refs == 1 then m - {a}
      else if m[a].refs > 1 then m[a := m[a].(refs := m[a].refs - 1)]
      else m
    case Pin(a) => if a in m then m[a := m[a].(pinned := true)] else m
    case Empty(deletePinned) => m - Goes(m, deletePinned)
  }

  /** The atom that a call of add returns, or -1. */
  ghost function Got(m: map<int, Entry>, c: Call): int
    requires c.Add?
  {
    var a := Find(m, c.name);
    if a in m then a else if Storable(c.name) then c.handle else -1
  }

  lemma AddKeeps(m: map<int, Entry>, name: string, handle: int)
    requires Good(m) && Legal(m, Add(name, handle))
    ensures Good(After(m, Add(name, handle)))
    ensures Find(After(m, Add(name, handle)), name) == Got(m, Add(name, handle))
  {
    var r := After(m, Add(name, handle));
    FindIs(m, name);
    var a := Find(m, name);
    if a in m {
      assert forall b :: b in r ==> b in m && r[b].name == m[b].name;
      assert Unique(r);
    } else if Storable(name) && handle != -1 {
      forall x, y | x in r && y in r && SameName(r[x].name, r[y].name) ensures x == y {
        if x == handle && y != handle { SameSymmetric(r[x].name, r[y].name); }
      }
      assert r[handle].name == name;
    }
    FindIs(r, name);
  }

  /** One more reference to the atom with the name, or a new entry exactly for a storable name and a free handle. */
  lemma AddMeans(m: map<int, Entry>, name: string, handle: int)
    requires Good(m)
    ensures
      var a, r := Find(m, name), After(m, Add(name, handle));
      if a != -1 then
        && a in m && r == m[a := r[a]] && r[a].name == m[a].name
        && (if m[a].pinned then r[a] == m[a]
            else r[a].refs == (m[a].refs + 1) % 0x1_0000 && (r[a].pinned <==> r[a].refs == 0))
      else r == if 0 < |name| <= 255 && handle != -1 then m[handle := Entry(name, 1, false)] else m
  {
    FindIs(m, name);
  }

  /** Every call keeps the names unique and the counts of the atoms that are not pinned positive. */
  lemma CallKeeps(m: map<int, Entry>, c: Call)
    requires Good(m) && Legal(m, c)
    ensures Good(After(m, c))
  {
    var r := After(m, c);
    if c.Add? {
      AddKeeps(m, c.name, c.handle);
    } else {
      assert forall b :: b in r ==> b in m && r[b].name == m[b].name;
      assert Unique(r);
    }
  }

  // ----- runs

  ghost function Run(calls: seq<Call>): map<int, Entry> {
    if calls == [] then map[] else After(Run(calls[..|calls| - 1]), calls[|calls| - 1])
  }

  ghost predicate LegalRun(calls: seq<Call>) {
    calls == [] || (LegalRun(calls[..|calls| - 1]) && Legal(Run(calls[..|calls| - 1]), calls[|calls| - 1]))
  }

  /** The calls of add that returned a, less the calls that deleted it with success, since it was created. */
  ghost function Balance(calls: seq<Call>, a: int): int {
    if calls == [] then 0
    else
      var before, c := calls[..|calls| - 1], calls[|calls| - 1];
      var m, n := Run(before), Balance(before, a);
      match c
      case Add(_, _) => if Got(m, c) == a then n + 1 else n
      case Delete(b) => if b == a && a in m && !m[a].pinned then n - 1 else n
      case Pin(_) => n
      case Empty(deletePinned) => if a in Goes(m, deletePinned) then 0 else n
  }

  /** In every run the names stay unique up to case; an atom that is not pinned is in the table exactly when
      it was added more often than deleted, and its count is the difference. */
  lemma {:induction false} RunCounts(calls: seq<Call>, a: int)
    requires LegalRun(calls) && a != -1
    ensures Good(Run(calls))
    ensures a !in Run(calls) ==> Balance(calls, a) == 0
    ensures a in Run(calls) && !Run(calls)[a].pinned ==> Run(calls)[a].refs == Balance(calls, a) > 0
    decreases |calls|
  {
    if calls != [] {
      var before, c := calls[..|calls| - 1], calls[|calls| - 1];
      RunCounts(before, a);
      CallKeeps(Run(before), c);
      if c.Add? { FindIs(Run(before), c.name); }
    }
  }

  /** Pinning an atom leaves its name, its count and all other atoms as they are. */
  lemma PinPins(m: map<int, Entry>, a: int)
    requires a in m
    ensures After(m, Pin(a)) == m[a := Entry(m[a].name, m[a].refs, true)]
  {
  }

  /** After it was pinned an atom stays, and stays pinned, until the table is emptied with its pinned atoms. */
  lemma PinnedFromThere(calls: seq<Call>, more: seq<Call>, a: int)
    requires LegalRun(calls + [Pin(a)] + more) && a in Run(calls) && a != -1
    requires forall i :: 0 <= i < |more| ==> more[i] != Empty(true)
    ensures
      var m, r := Run(calls), Run(calls + [Pin(a)] + more);
      a in r && r[a] == Entry(m[a].name, m[a].refs, true)
  {
    var pinned := calls + [Pin(a)];
    assert pinned[..|pinned| - 1] == calls;
    PinPins(Run(calls), a);
    PinnedStays(pinned, more, a);
  }

  /** A pinned atom stays, whatever happens, until the table is emptied with its pinned atoms. */
  lemma {:induction false} PinnedStays(calls: seq<Call>, more: seq<Call>, a: int)
    requires LegalRun(calls + more) && a in Run(calls) && Run(calls)[a].pinned && a != -1
    requires forall i :: 0 <= i < |more| ==> more[i] != Empty(true)
    ensures a in Run(calls + more) && Run(calls + more)[a] == Run(calls)[a]
    decreases |more|
  {
    if more == [] {
      assert calls + more == calls;
    } else {
      var n := |more| - 1;
      var all := calls + more;
      assert all[..|all| - 1] == calls + more[..n] && all[|all| - 1] == more[n];
      PinnedStays(calls, more[..n], a);
      RunCounts(calls + more[..n], a);
      if more[n].Add? { FindIs(Run(calls + more[..n]), more[n].name); }
    }
  }
}
