/** The atom table (rtl/atom.c). */
module AtomTable {
  import opened Atoms

  // Hash buckets whose chains lead to the entries. A chain is the list of the atoms of its
  // entries; the handle table is the map from atoms to entries.

  /** STATUS_SUCCESS, STATUS_WAS_LOCKED, STATUS_INVALID_PARAMETER, STATUS_OBJECT_NAME_INVALID,
      STATUS_OBJECT_NAME_NOT_FOUND, STATUS_INVALID_HANDLE and STATUS_NO_MEMORY. */
  datatype Status = Success | WasLocked | InvalidParameter | NameInvalid | NameNotFound | InvalidHandle | NoMemory

  /** A name is given as a string, or as a number below 2^16 in place of the pointer. */
  datatype AtomName = Ordinal(n: nat) | Text(s: string)

  function DecimalValue(s: string): (v: nat)
    requires forall i :: 0 <= i < |s| ==> '0' <= s[i] <= '9'
  {
    if s == "" then 0 else DecimalValue(s[..|s| - 1]) * 10 + (s[|s| - 1] as int - '0' as int)
  }

  predicate IsNumber(s: string) {
    s != "" && s[0] == '#' && forall i {:trigger s[i]} :: 1 <= i < |s| ==> '0' <= s[i] <= '9'
  }

  /** Is this the name of an integer atom, and of which? */
  predicate IsInteger(name: AtomName) {
    name.Ordinal? || IsNumber(name.s)
  }

  function IntegerAtom(name: AtomName): nat
    requires IsInteger(name)
  {
    match name
    case Ordinal(n) => if n == 0 then FirstAtom else n
    case Text(s) => DecimalValue(s[1..]) % 0x1_0000
  }

  function DigitChar(d: nat): (c: char)
    requires d < 10
    ensures '0' <= c <= '9' && c as int == '0' as int + d
  {
    ('0' as int + d) as char
  }

  /** A number in decimal. */
  function Decimal(n: nat): (s: string)
    ensures s != "" && forall i :: 0 <= i < |s| ==> '0' <= s[i] <= '9'
  {
    (if n < 10 then "" else Decimal(n / 10)) + [DigitChar(n % 10)]
  }

  lemma OneDigitMore(front: string, d: nat, s: string)
    requires (forall i :: 0 <= i < |front| ==> '0' <= front[i] <= '9') && d < 10 && s == front + [DigitChar(d)]
    ensures DecimalValue(s) == DecimalValue(front) * 10 + d
  {
    assert s[..|s| - 1] == front;
  }

  lemma {:induction false} DecimalReads(n: nat)
    ensures DecimalValue(Decimal(n)) == n
  {
    if n >= 10 { DecimalReads(n / 10); }
    OneDigitMore(if n < 10 then "" else Decimal(n / 10), n % 10, Decimal(n));
  }

  /** A number sign and a decimal number name the integer atom of its last sixteen bits. */
  lemma {:induction false} DecimalNames(n: nat, s: string)
    requires s == "#" + Decimal(n)
    ensures IsInteger(Text(s)) && IntegerAtom(Text(s)) == n % 0x1_0000
  {
    assert s[1..] == Decimal(n);
    DecimalReads(n);
  }

  lemma {:induction false} DecimalWraps(s: string, k: nat)
    requires k <= |s| && forall i :: 0 <= i < |s| ==> '0' <= s[i] <= '9'
    ensures k < |s| ==> DecimalValue(s[..k + 1]) == DecimalValue(s[..k]) * 10 + (s[k] as int - '0' as int)
  {
    if k < |s| { assert s[..k + 1][..k] == s[..k]; }
  }

  lemma WrapStep(d: int, total: int, digit: int)
    requires total == d % 0x1_0000_0000
    ensures (total * 10 + digit) % 0x1_0000_0000 == (d * 10 + digit) % 0x1_0000_0000
  {
    var q := d / 0x1_0000_0000;
    assert d * 10 + digit == q * 10 * 0x1_0000_0000 + (total * 10 + digit);
  }

  lemma WrapTwice(d: int)
    ensures d % 0x1_0000_0000 % 0x1_0000 == d % 0x1_0000
  {
    var q, r := d / 0x1_0000_0000, d % 0x1_0000_0000;
    var k, s := r / 0x1_0000, r % 0x1_0000;
    Remainder(d, q * 0x1_0000 + k, s);
  }

  lemma Remainder(d: int, k: int, s: int)
    requires d == k * 0x1_0000 + s && 0 <= s < 0x1_0000
    ensures d % 0x1_0000 == s
  {
  }

  /** RtlpCheckIntegerAtom (rtl/atom.c:84-138), with the running total of 32 bits. */
  method CheckIntegerAtom(name: AtomName) returns (integer: bool, atom: nat)
    requires name.Ordinal? ==> name.n < 0x1_0000
    ensures integer <==> IsInteger(name)
    ensures integer <==> name.Ordinal? || (name.s != "" && name.s[0] == '#'
                                           && forall c :: c in name.s[1..] ==> '0' <= c <= '9')
    ensures integer ==> atom == IntegerAtom(name)
    ensures name.Ordinal? ==> atom == if name.n == 0 then 0xC000 else name.n
  {
    match name
    case Ordinal(n) =>
      return true, if n == 0 then FirstAtom else n;
    case Text(s) =>
      if s == "" || s[0] != '#' { return false, 0; }
      var p := 1;
      while p < |s|
        invariant 1 <= p <= |s| && forall i {:trigger s[i]} :: 1 <= i < p ==> '0' <= s[i] <= '9'
      {
        if s[p] < '0' || s[p] > '9' {
          assert s[p] == s[1..][p - 1] && s[p] in s[1..];
          return false, 0;
        }
        p := p + 1;
      }
      var digits, total := s[1..], 0;
      p := 0;
      while p < |digits|
        invariant 0 <= p <= |digits| && total == DecimalValue(digits[..p]) % 0x1_0000_0000
      {
        DecimalWraps(digits, p);
        ghost var d := DecimalValue(digits[..p]);
        var digit := digits[p] as int - '0' as int;
        WrapStep(d, total, digit);
        total := (total * 10 + digit) % 0x1_0000_0000;
        p := p + 1;
      }
      assert digits[..p] == digits;
      WrapTwice(DecimalValue(digits));
      integer, atom := true, total % 0x1_0000;
  }

  function BucketOf(n: nat, name: string): nat
    requires n > 0
  {
    Hash(name) % n
  }

  /** Every chain lists different entries of its bucket, and every entry is in its bucket's chain. */
  ghost predicate Chained(buckets: seq<seq<int>>, m: map<int, Entry>) {
    && |buckets| > 0
    && (forall b, i {:trigger buckets[b][i]} :: 0 <= b < |buckets| && 0 <= i < |buckets[b]| ==>
          buckets[b][i] in m && BucketOf(|buckets|, m[buckets[b][i]].name) == b)
    && (forall b {:trigger Different(buckets[b])} :: 0 <= b < |buckets| ==> Different(buckets[b]))
    && (forall a {:trigger m[a]} :: a in m ==> a in buckets[BucketOf(|buckets|, m[a].name)])
  }

  ghost predicate Different(chain: seq<int>) {
    forall i, j {:trigger chain[i], chain[j]} :: 0 <= i < j < |chain| ==> chain[i] != chain[j]
  }

  /** One reference to a chain: of bucket b, the i-th. */
  datatype Link = NoLink | Link(b: nat, i: nat)

  /** The chains once the entry at a link is bypassed. */
  function Bypassed(buckets: seq<seq<int>>, b: nat, i: nat): seq<seq<int>>
    requires b < |buckets| && i < |buckets[b]|
  {
    buckets[b := buckets[b][..i] + buckets[b][i + 1..]]
  }

  lemma ShortDifferent(chain: seq<int>, i: nat)
    requires Different(chain) && i < |chain|
    ensures
      var short := chain[..i] + chain[i + 1..];
      Different(short) && forall k {:trigger short[k]} :: 0 <= k < |short| ==>
                short[k] == chain[if k < i then k else k + 1] != chain[i]
  {
  }

  lemma BypassKeeps(buckets: seq<seq<int>>, m: map<int, Entry>, b: nat, i: nat)
    requires Chained(buckets, m) && b < |buckets| && i < |buckets[b]|
    ensures Chained(Bypassed(buckets, b, i), m - {buckets[b][i]})
  {
    var chain, a := buckets[b], buckets[b][i];
    var r, n := Bypassed(buckets, b, i), m - {a};
    var short := chain[..i] + chain[i + 1..];
    assert Different(chain);
    ShortDifferent(chain, i);
    forall c, k | 0 <= c < |r| && 0 <= k < |r[c]| ensures r[c][k] in n && BucketOf(|r|, n[r[c][k]].name) == c {
      if c == b { assert r[c][k] == short[k]; } else { assert r[c][k] == buckets[c][k]; }
    }
    forall x | x in n ensures x in r[BucketOf(|r|, n[x].name)] {
      var c := BucketOf(|r|, n[x].name);
      if c == b {
        var k :| 0 <= k < |chain| && chain[k] == x;
        assert short[if k < i then k else k - 1] == x;
      }
    }
  }

  lemma AppendKeeps(buckets: seq<seq<int>>, m: map<int, Entry>, a: int, e: Entry)
    requires Chained(buckets, m) && a !in m
    ensures
      var b := BucketOf(|buckets|, e.name);
      Chained(buckets[b := buckets[b] + [a]], m[a := e])
  {
    var b := BucketOf(|buckets|, e.name);
    var r, n := buckets[b := buckets[b] + [a]], m[a := e];
    assert Different(buckets[b]);
    forall c, k | 0 <= c < |r| && 0 <= k < |r[c]| ensures r[c][k] in n && BucketOf(|r|, n[r[c][k]].name) == c {
      if k < |buckets[c]| { assert r[c][k] == buckets[c][k]; }
    }
    assert forall k :: 0 <= k < |buckets[b]| ==> buckets[b][k] in m;
    forall c | 0 <= c < |r| ensures Different(r[c]) { assert Different(buckets[c]); }
    assert r[b][|buckets[b]|] == a;
  }

  class Table {
    var buckets: seq<seq<int>>
    var entries: map<int, Entry>

    ghost predicate Valid()
      reads this
    {
      Good(entries) && Chained(buckets, entries)
    }

    /** RtlCreateAtomTable (rtl/atom.c:144-190). */
    constructor (tableSize: nat)
      ensures Valid() && entries == Run([])
      ensures |buckets| == if tableSize <= 1 then 37 else tableSize
    {
      var size := if tableSize <= 1 then 37 else tableSize;
      buckets := seq(size, _ => []);
      entries := map[];
    }

    /** RtlpHashAtomName (rtl/atom.c:39-82): the atom with this name, or -1, and the link that leads to it,
        or to the end of its chain. */
    method HashAtomName(name: string) returns (found: int, link: Link)
      requires Valid()
      ensures found == Find(entries, name)
      ensures link == NoLink <==> name == ""
      ensures link != NoLink ==> link.b == BucketOf(|buckets|, name) < |buckets|
      ensures found != -1 ==> found in entries && SameName(entries[found].name, name)
                              && link != NoLink && link.i < |buckets[link.b]| && buckets[link.b][link.i] == found
      ensures found == -1 && link != NoLink ==> link.i == |buckets[link.b]|
    {
      FindIs(entries, name);
      if name == "" { return -1, NoLink; }
      var b, i := Hash(name) % |buckets|, 0;
      var chain := buckets[b];
      while i < |chain|
        invariant 0 <= i <= |chain| && forall k {:trigger chain[k]} :: 0 <= k < i ==>
                  !SameName(entries[chain[k]].name, name)
      {
        assert chain[i] == buckets[b][i];
        if SameName(entries[chain[i]].name, name) { return chain[i], Link(b, i); }
        i := i + 1;
      }
      ghost var a := Find(entries, name);
      if a != -1 { HashAgrees(entries[a].name, name); }
      found, link := -1, Link(b, i);
    }

    /** RtlAddAtomToAtomTable (rtl/atom.c:308-418); `handle` is what the handle table gives, or -1. */
    method Add(name: AtomName, handle: int) returns (status: Status, atom: int)
      requires Valid() && (name.Ordinal? ==> name.n < 0x1_0000)
          && (handle == -1 || (IsAtom(handle) && handle !in entries))
      modifies this
      ensures Valid() && |buckets| == |old(buckets)|
      ensures IsInteger(name) ==> buckets == old(buckets) && entries == old(entries)
      ensures IsInteger(name) ==> (status == if IntegerAtom(name) >= FirstAtom then InvalidParameter else Success)
                                  && (status == Success ==> atom == IntegerAtom(name))
      ensures !IsInteger(name) ==> entries == After(old(entries), Call.Add(name.s, handle))
      ensures !IsInteger(name) ==> (atom == Got(old(entries), Call.Add(name.s, handle))
              && (status == Success <==> atom != -1) && (status == Success ==> Find(entries, name.s) == atom)
              && (status != Success ==>
                  status == if name.s == "" then NameInvalid else if |name.s| > MaxLength then InvalidParameter
                  else NoMemory))
      ensures !IsInteger(name) && Find(old(entries), name.s) != -1 ==>
                && atom == Find(old(entries), name.s) && atom in old(entries)
                && entries == old(entries)[atom := entries[atom]] && entries[atom].name == old(entries)[atom].name
                && (if old(entries)[atom].pinned then entries[atom] == old(entries)[atom]
                    else entries[atom].refs == (old(entries)[atom].refs + 1) % 0x1_0000
                         && (entries[atom].pinned <==> entries[atom].refs == 0))
      ensures !IsInteger(name) && Find(old(entries), name.s) == -1 ==>
                if 0 < |name.s| <= 255 && handle != -1
                then atom == handle && entries == old(entries)[handle := Entry(name.s, 1, false)]
                else atom == -1 && entries == old(entries)
    {
      var integer, value := CheckIntegerAtom(name);
      if integer {
        return if value >= FirstAtom then InvalidParameter else Success, value;
      }
      var s := name.s;
      var found, link := HashAtomName(s);
      AddKeeps(entries, s, handle);
      AddMeans(entries, s, handle);
      FindIs(entries, s);
      if found != -1 {
        entries := entries[found := Referenced(entries[found])];
        return Success, found;
      }
      if link == NoLink { return NameInvalid, -1; }
      if |s| > MaxLength { return InvalidParameter, -1; }
      if handle == -1 { return NoMemory, -1; }
      AppendKeeps(buckets, entries, handle, Entry(s, 1, false));
      buckets := buckets[link.b := buckets[link.b] + [handle]];
      entries := entries[handle := Entry(s, 1, false)];
      return Success, handle;
    }

    /** RtlDeleteAtomFromAtomTable (rtl/atom.c:426-488). Hashing the name again finds the entry itself, so
        the assertion at rtl/atom.c:468 cannot fail. */
    method Delete(atom: nat) returns (status: Status)
      requires Valid() && atom <= LastAtom
      modifies this
      ensures Valid() && |buckets| == |old(buckets)|
      ensures entries == After(old(entries), Call.Delete(atom))
      ensures status == if atom < FirstAtom then Success else if atom !in old(entries) then InvalidHandle
                        else if old(entries)[atom].pinned then WasLocked else Success
      ensures atom in old(entries) && !old(entries)[atom].pinned ==>
                var e := old(entries)[atom];
                entries == if e.refs == 1 then old(entries) - {atom}
                           else old(entries)[atom := Entry(e.name, e.refs - 1, false)]
      ensures atom !in old(entries) || old(entries)[atom].pinned ==> entries == old(entries)
    {
      if atom < FirstAtom { return Success; }
      if atom !in entries { return InvalidHandle; }
      CallKeeps(entries, Call.Delete(atom));
      var e := entries[atom];
      if e.pinned { return WasLocked; }
      if e.refs == 1 {
        var found, link := HashAtomName(e.name);
        FindIs(entries, e.name);
        assert found == atom;
        BypassKeeps(buckets, entries, link.b, link.i);
        buckets := Bypassed(buckets, link.b, link.i);
        entries := entries - {atom};
      } else {
        entries := entries[atom := e.(refs := e.refs - 1)];
      }
      status := Success;
    }

    /** RtlLookupAtomInAtomTable (rtl/atom.c:494-539). */
    method Lookup(name: AtomName) returns (status: Status, atom: int)
      requires Valid() && (name.Ordinal? ==> name.n < 0x1_0000)
      ensures IsInteger(name) ==> (status == if IntegerAtom(name) >= FirstAtom then InvalidParameter else Success)
                                  && (status == Success ==> atom == IntegerAtom(name))
      ensures !IsInteger(name) ==> status == if Find(entries, name.s) == -1 then NameNotFound else Success
      ensures !IsInteger(name) && status == Success ==> atom in entries && SameName(entries[atom].name, name.s)
    {
      var integer, value := CheckIntegerAtom(name);
      if integer {
        return if value >= FirstAtom then InvalidParameter else Success, value;
      }
      var found, link := HashAtomName(name.s);
      status, atom := if found == -1 then NameNotFound else Success, found;
    }

    /** RtlPinAtomInAtomTable (rtl/atom.c:545-575). */
    method Pin(atom: nat) returns (status: Status)
      requires Valid() && atom <= LastAtom
      modifies this`entries
      ensures Valid() && entries == After(old(entries), Call.Pin(atom))
      ensures status == if FirstAtom <= atom && atom !in old(entries) then InvalidHandle else Success
      ensures atom in old(entries) ==>
                entries == old(entries)[atom := Entry(old(entries)[atom].name, old(entries)[atom].refs, true)]
      ensures atom !in old(entries) ==> entries == old(entries)
    {
      if atom < FirstAtom { return Success; }
      if atom !in entries { return InvalidHandle; }
      CallKeeps(entries, Call.Pin(atom));
      entries := entries[atom := entries[atom].(pinned := true)];
      status := Success;
    }

    /** One bucket of RtlEmptyAtomTable. */
    method EmptyBucket(b: nat, deletePinned: bool)
      requires b < |buckets| && Chained(buckets, entries)
      modifies this
      ensures Chained(buckets, entries) && |buckets| == |old(buckets)|
      ensures entries == old(entries) - (set a | a in Goes(old(entries), deletePinned) && a in old(buckets[b]))
      ensures forall c :: 0 <= c < |buckets| && c != b ==> buckets[c] == old(buckets)[c]
    {
      ghost var chain0 := buckets[b];
      var i := 0;
      ghost var k := 0;
      while i < |buckets[b]|
        invariant Chained(buckets, entries) && |buckets| == |old(buckets)| && 0 <= i <= |buckets[b]|
            && 0 <= k <= |chain0|
        invariant buckets[b][i..] == chain0[k..]
        invariant entries == old(entries) - (set a | a in Goes(old(entries), deletePinned) && a in chain0[..k])
        invariant forall c :: 0 <= c < |buckets| && c != b ==> buckets[c] == old(buckets)[c]
        decreases |chain0| - k
      {
        var a := buckets[b][i];
        assert a == buckets[b][i..][0] == chain0[k];
        assert chain0[..k + 1] == chain0[..k] + [a];
        if deletePinned || !entries[a].pinned {
          BypassKeeps(buckets, entries, b, i);
          ghost var rest := buckets[b][i + 1..];
          buckets := Bypassed(buckets, b, i);
          entries := entries - {a};
          assert buckets[b][i..] == rest;
        } else {
          i := i + 1;
        }
        k := k + 1;
      }
      assert chain0[..k] == chain0;
    }

    /** RtlEmptyAtomTable (rtl/atom.c:254-301). */
    method Empty(deletePinned: bool)
      requires Valid()
      modifies this
      ensures Valid() && |buckets| == |old(buckets)|
      ensures entries == After(old(entries), Call.Empty(deletePinned))
      ensures forall a :: a in entries <==> !deletePinned && a in old(entries) && old(entries)[a].pinned
      ensures forall a :: a in entries ==> entries[a] == old(entries)[a]
    {
      CallKeeps(entries, Call.Empty(deletePinned));
      var b := 0;
      ghost var gone: set<int> := {};
      while b < |buckets|
        invariant 0 <= b <= |buckets| == |old(buckets)| && Chained(buckets, entries)
        invariant entries == old(entries) - gone && gone <= Goes(old(entries), deletePinned)
        invariant forall c :: b <= c < |buckets| ==> buckets[c] == old(buckets)[c]
        invariant forall a {:trigger a in gone} ::
                    a in Goes(old(entries), deletePinned) && BucketOf(|buckets|, old(entries)[a].name) < b ==> a in gone
      {
        ghost var now := set a | a in Goes(entries, deletePinned) && a in buckets[b];
        EmptyBucket(b, deletePinned);
        gone := gone + now;
        b := b + 1;
      }
      forall a | a in Goes(old(entries), deletePinned) ensures a in gone {
        assert BucketOf(|buckets|, old(entries)[a].name) < |buckets|;
      }
    }
  }
}
