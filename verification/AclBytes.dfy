/** Access control lists as bytes (rtl/acl.c). */
module AclBytes {

  // An entry starts with its type, its flags and its size, and the entries follow one another. All offsets
  // count from behind the header of the list.

  type Byte = b: int | 0 <= b < 256

  const HeaderSize := 4

  /** AceSize of the entry at o. */
  function SizeAt(b: seq<Byte>, o: nat): (s: nat)
    requires o + HeaderSize <= |b|
    ensures s < 0x1_0000
  {
    var low: int, high: int := b[o + 2], b[o + 3];
    low + 256 * high
  }

  /** Entries up to ACCESS_MAX_MS_V2_ACE_TYPE hold a SID behind an access mask. */
  const MaxV2Type := 3
  const CompoundType := 4
  const MinObjectType := 5
  const MaxObjectType := 8
  const SidOffset := 8

  /** The byte at i; there is nothing to be told from bytes outside of the list. */
  function ByteAt(b: seq<Byte>, i: nat): Byte {
    if i < |b| then b[i] else 0
  }

  function LengthSid(subAuthorities: int): int {
    8 + 4 * subAuthorities
  }

  /** What RtlValidAcl demands of the entry at o (rtl/acl.c:871-952). */
  predicate AceOk(b: seq<Byte>, o: nat) {
    && o + HeaderSize < |b|
    && var size, kind, count := SizeAt(b, o), b[o], ByteAt(b, o + SidOffset + 1);
    && size % 2 == 0 && o + size <= |b|
    && (if kind <= MaxV2Type then
          size % 4 == 0 && HeaderSize <= size && ByteAt(b, o + SidOffset) == 1 && count <= 15
              && HeaderSize + LengthSid(count) <= size
        else if kind == CompoundType || MinObjectType <= kind <= MaxObjectType then true
        else HeaderSize <= size)
  }

  /** n entries from o on that RtlValidAcl accepts. */
  predicate AllOk(b: seq<Byte>, o: nat, n: nat)
    decreases n
  {
    n == 0 || (AceOk(b, o) && AllOk(b, o + SizeAt(b, o), n - 1))
  }

  /** n entries from o on, each at least as long as its header. */
  predicate Lists(b: seq<Byte>, o: nat, n: nat)
    decreases n
  {
    if n == 0 then o <= |b|
    else o + HeaderSize <= |b| && HeaderSize <= SizeAt(b, o) && Lists(b, o + SizeAt(b, o), n - 1)
  }

  /** None of the n entries from o on is a compound or object entry shorter than its header. */
  predicate LongEnough(b: seq<Byte>, o: nat, n: nat)
    decreases n
  {
    n == 0 || (o + HeaderSize <= |b| && (CompoundType <= b[o] <= MaxObjectType ==> HeaderSize <= SizeAt(b, o))
               && LongEnough(b, o + SizeAt(b, o), n - 1))
  }

  /** Of an accepted list, every entry has a header of its own exactly when no compound or object entry is shorter:
      these are the ones whose sizes RtlValidAcl does not look at. */
  lemma {:induction false} ListsExactly(b: seq<Byte>, o: nat, n: nat)
    requires AllOk(b, o, n) && o <= |b|
    ensures Lists(b, o, n) <==> LongEnough(b, o, n)
    decreases n
  {
    if n > 0 { ListsExactly(b, o + SizeAt(b, o), n - 1); }
  }

  /** A compound or object entry of size zero is accepted as any number of entries. */
  lemma {:induction false} ZeroSizeAccepted(b: seq<Byte>, o: nat, n: nat)
    requires o + HeaderSize < |b| && CompoundType <= b[o] <= MaxObjectType && SizeAt(b, o) == 0
    ensures AllOk(b, o, n) && (n > 0 ==> !LongEnough(b, o, n))
    decreases n
  {
    if n > 0 { ZeroSizeAccepted(b, o, n - 1); }
  }

  /** The headers that a walk over n entries from o on reads lie in the list. */
  predicate InReach(b: seq<Byte>, o: nat, n: nat)
    decreases n
  {
    n == 0 || o >= |b| || (o + HeaderSize <= |b| && InReach(b, o + SizeAt(b, o), n - 1))
  }

  /** Where a walk over n entries from o on ends; -1 if it is stopped because an entry starts beyond the list. */
  function Walk(b: seq<Byte>, o: nat, n: nat): int
    requires InReach(b, o, n)
    decreases n
  {
    if n == 0 then o else if o >= |b| then -1 else Walk(b, o + SizeAt(b, o), n - 1)
  }

  lemma {:induction false} WalkFront(b: seq<Byte>, o: nat, n: nat, k: nat)
    requires InReach(b, o, n) && k <= n
    ensures InReach(b, o, k) && (Walk(b, o, n) >= 0 ==> Walk(b, o, k) >= 0)
    decreases n
  {
    if k > 0 && o < |b| { WalkFront(b, o + SizeAt(b, o), n - 1, k - 1); }
  }

  /** Where the entry at the index starts; -1 if an entry before it starts beyond the list. */
  function Place(b: seq<Byte>, n: nat, index: nat): int
    requires InReach(b, 0, n) && index <= n
  {
    WalkFront(b, 0, n, index);
    Walk(b, 0, index)
  }

  /** On whole entries the walk comes to their end. */
  lemma {:induction false} WalkIs(b: seq<Byte>, o: nat, n: nat)
    requires Lists(b, o, n)
    ensures InReach(b, o, n) && Walk(b, o, n) == End(b, o, n)
    decreases n
  {
    if n > 0 { WalkIs(b, o + SizeAt(b, o), n - 1); }
  }

  /** Where n entries from o on end. */
  function End(b: seq<Byte>, o: nat, n: nat): (e: nat)
    requires Lists(b, o, n)
    ensures o <= e <= |b| && (n > 0 ==> o + HeaderSize <= e)
    decreases n
  {
    if n == 0 then o else End(b, o + SizeAt(b, o), n - 1)
  }

  /** The entries. */
  function Aces(b: seq<Byte>, o: nat, n: nat): (r: seq<seq<Byte>>)
    requires Lists(b, o, n)
    ensures |r| == n
    decreases n
  {
    if n == 0 then []
    else
      var e := o + SizeAt(b, o);
      assert e <= End(b, e, n - 1);
      [b[o..e]] + Aces(b, e, n - 1)
  }

  /** The bytes of entries in a row. */
  function Flat(aces: seq<seq<Byte>>): seq<Byte> {
    if aces == [] then [] else aces[0] + Flat(aces[1..])
  }

  /** An entry says how long it is. */
  predicate Proper(ace: seq<Byte>) {
    HeaderSize <= |ace| && SizeAt(ace, 0) == |ace|
  }

  predicate AllProper(aces: seq<seq<Byte>>) {
    forall i {:trigger aces[i]} :: 0 <= i < |aces| ==> Proper(aces[i])
  }

  /** The text t stands at o. */
  predicate Stands(b: seq<Byte>, o: nat, t: seq<Byte>) {
    o + |t| <= |b| && b[o..o + |t|] == t
  }

  lemma StandsParts(b: seq<Byte>, o: nat, x: seq<Byte>, y: seq<Byte>)
    ensures Stands(b, o, x + y) <==> Stands(b, o, x) && Stands(b, o + |x|, y)
  {
    if o + |x| + |y| <= |b| {
      var t := b[o..o + |x + y|];
      assert t == b[o..o + |x|] + b[o + |x|..o + |x| + |y|];
      assert t[..|x|] == b[o..o + |x|] && t[|x|..] == b[o + |x|..o + |x| + |y|];
      assert (x + y)[..|x|] == x && (x + y)[|x|..] == y;
    }
  }

  // ----- reading what was written

  lemma SizeStands(b: seq<Byte>, o: nat, a: seq<Byte>)
    requires Proper(a) && Stands(b, o, a)
    ensures o + HeaderSize <= |b| && SizeAt(b, o) == |a|
  {
    assert b[o + 2] == a[2] && b[o + 3] == a[3];
  }

  /** Proper entries read back, wherever they stand. */
  lemma {:induction false} FlatReads(b: seq<Byte>, o: nat, aces: seq<seq<Byte>>)
    requires AllProper(aces) && Stands(b, o, Flat(aces))
    ensures Lists(b, o, |aces|) && End(b, o, |aces|) == o + |Flat(aces)| && Aces(b, o, |aces|) == aces
    decreases |aces|
  {
    if aces != [] {
      var a, rest := aces[0], aces[1..];
      var behind, next, n := Flat(rest), o + |a|, |rest|;
      assert Proper(a) && Flat(aces) == a + behind && aces == [a] + rest && |aces| == n + 1;
      StandsParts(b, o, a, behind);
      SizeStands(b, o, a);
      FlatReads(b, next, rest);
      FrontReads(b, o, a, rest, next, n);
    }
  }

  lemma FrontReads(b: seq<Byte>, o: nat, a: seq<Byte>, rest: seq<seq<Byte>>, next: nat, n: nat)
    requires Stands(b, o, a) && o + HeaderSize <= |b| && SizeAt(b, o) == |a| >= HeaderSize
    requires next == o + |a| && Lists(b, next, n) && Aces(b, next, n) == rest
    ensures Lists(b, o, n + 1) && End(b, o, n + 1) == End(b, next, n) && Aces(b, o, n + 1) == [a] + rest
  {
  }

  /** The entries that are read are proper, and their bytes are those read. */
  lemma {:induction false} AcesFlat(b: seq<Byte>, o: nat, n: nat)
    requires Lists(b, o, n)
    ensures AllProper(Aces(b, o, n)) && Flat(Aces(b, o, n)) == b[o..End(b, o, n)]
    decreases n
  {
    if n > 0 {
      var e := o + SizeAt(b, o);
      AcesFlat(b, e, n - 1);
      FlatFront(b, o, e, End(b, o, n), Aces(b, e, n - 1));
    }
  }

  lemma FlatFront(b: seq<Byte>, o: nat, e: nat, end: nat, rest: seq<seq<Byte>>)
    requires o + HeaderSize <= e <= end <= |b| && e == o + SizeAt(b, o) && Flat(rest) == b[e..end] && AllProper(rest)
    ensures Flat([b[o..e]] + rest) == b[o..end] && AllProper([b[o..e]] + rest)
  {
    var a, aces := b[o..e], [b[o..e]] + rest;
    assert a[2] == b[o + 2] && a[3] == b[o + 3];
    assert aces[0] == a && aces[1..] == rest;
    assert b[o..end] == a + b[e..end];
    forall i | 0 <= i < |aces| ensures Proper(aces[i]) { if i > 0 { assert aces[i] == rest[i - 1]; } }
  }

  lemma {:induction false} FlatConcat(x: seq<seq<Byte>>, y: seq<seq<Byte>>)
    ensures Flat(x + y) == Flat(x) + Flat(y)
    decreases |x|
  {
    if x == [] {
      assert x + y == y;
    } else {
      assert (x + y)[1..] == x[1..] + y;
      FlatConcat(x[1..], y);
    }
  }

  /** The first k of n entries, and the others behind them. */
  lemma {:induction false} SplitLists(b: seq<Byte>, o: nat, n: nat, k: nat)
    requires Lists(b, o, n) && k <= n
    ensures Lists(b, o, k) && Lists(b, End(b, o, k), n - k) && End(b, o, n) == End(b, End(b, o, k), n - k)
    decreases k
  {
    if k > 0 {
      SplitLists(b, o + SizeAt(b, o), n - 1, k - 1);
    }
  }

  lemma {:induction false} SplitAces(b: seq<Byte>, o: nat, n: nat, k: nat)
    requires Lists(b, o, n) && k <= n && Lists(b, o, k) && Lists(b, End(b, o, k), n - k)
    ensures Aces(b, o, n) == Aces(b, o, k) + Aces(b, End(b, o, k), n - k)
    decreases k
  {
    if k > 0 {
      var e := o + SizeAt(b, o);
      SplitAces(b, e, n - 1, k - 1);
      Joined(b[o..e], Aces(b, e, k - 1), Aces(b, End(b, o, k), n - k));
    }
  }

  lemma Joined(a: seq<Byte>, x: seq<seq<Byte>>, y: seq<seq<Byte>>)
    ensures [a] + (x + y) == [a] + x + y
  {
  }

  /** The entry that is next. */
  lemma NextAce(b: seq<Byte>, o: nat, n: nat, k: nat)
    requires Lists(b, o, n) && k < n
    ensures Lists(b, o, k) && Lists(b, o, k + 1)
    ensures var e := End(b, o, k);
            e + HeaderSize <= |b| && End(b, o, k + 1) == e + SizeAt(b, e) && Aces(b, o, n)[k] == b[e..e + SizeAt(b, e)]
  {
    SplitLists(b, o, n, k);
    SplitAces(b, o, n, k);
    SplitLists(b, o, n, k + 1);
    SplitLists(b, o, k + 1, k);
    var e := End(b, o, k);
    assert Aces(b, o, n)[k] == Aces(b, e, n - k)[0];
  }

  // ----- validity, entry by entry

  /** What RtlValidAcl demands of the entry itself. */
  predicate Good(ace: seq<Byte>) {
    && Proper(ace) && |ace| % 2 == 0
    && (ace[0] <= MaxV2Type ==>
          && |ace| % 4 == 0 && ByteAt(ace, SidOffset) == 1 && ByteAt(ace, SidOffset + 1) <= 15
          && HeaderSize + LengthSid(ByteAt(ace, SidOffset + 1)) <= |ace|)
  }

  /** In numbers: whole multiples of two bytes; up to the audit entries, a SID of revision 1 and at most fifteen
      subauthorities that fits, and whole multiples of four. */
  lemma GoodExactly(ace: seq<Byte>)
    ensures Good(ace) <==>
              && |ace| >= 4 && |ace| == ace[2] as int + 256 * ace[3] as int && |ace| % 2 == 0
              && (ace[0] <= 3 ==>
                   && |ace| % 4 == 0 && |ace| >= 12 && ace[8] == 1 && ace[9] <= 15
                   && |ace| >= 12 + 4 * ace[9] as int)
  {
  }

  predicate AllGood(aces: seq<seq<Byte>>) {
    forall i {:trigger aces[i]} :: 0 <= i < |aces| ==> Good(aces[i])
  }

  lemma AceOkIs(b: seq<Byte>, o: nat)
    requires Lists(b, o, 1)
    ensures AceOk(b, o) <==> o + HeaderSize < |b| && Good(b[o..o + SizeAt(b, o)])
  {
    var a := b[o..o + SizeAt(b, o)];
    assert a[0] == b[o] && a[2] == b[o + 2] && a[3] == b[o + 3];
    assert |a| > SidOffset + 1 ==> a[SidOffset] == b[o + SidOffset] && a[SidOffset + 1] == b[o + SidOffset + 1];
  }

  /** No entry is a bare header at the very end. */
  predicate RoomBehind(b: seq<Byte>, o: nat, n: nat)
    requires Lists(b, o, n)
    decreases n
  {
    n > 0 ==> o + HeaderSize < |b| && RoomBehind(b, o + SizeAt(b, o), n - 1)
  }

  /** The list is accepted exactly when all entries are good and none is a bare header at the very end. */
  lemma {:induction false} AllOkIs(b: seq<Byte>, o: nat, n: nat)
    requires Lists(b, o, n)
    ensures AllOk(b, o, n) <==> AllGood(Aces(b, o, n)) && RoomBehind(b, o, n)
    decreases n
  {
    if n > 0 {
      var e := o + SizeAt(b, o);
      AceOkIs(b, o);
      AllOkIs(b, e, n - 1);
      AllGoodFront(b[o..e], Aces(b, e, n - 1));
    }
  }

  lemma AllGoodFront(a: seq<Byte>, rest: seq<seq<Byte>>)
    ensures AllGood([a] + rest) <==> Good(a) && AllGood(rest)
  {
    var aces := [a] + rest;
    assert aces[0] == a && forall i {:trigger rest[i]} :: 0 <= i < |rest| ==> aces[i + 1] == rest[i];
    if Good(a) && AllGood(rest) {
      forall i | 0 <= i < |aces| ensures Good(aces[i]) { if i > 0 { assert aces[i] == rest[i - 1]; } }
    }
  }

  /** Only a last entry of four bytes can be refused for its place. */
  lemma {:induction false} RoomBehindIs(b: seq<Byte>, o: nat, n: nat)
    requires Lists(b, o, n)
    ensures RoomBehind(b, o, n) <==> n == 0 || End(b, o, n) < |b| || |Aces(b, o, n)[n - 1]| > HeaderSize
    decreases n
  {
    if n > 0 {
      var e := o + SizeAt(b, o);
      RoomBehindIs(b, e, n - 1);
      assert Aces(b, o, n)[n - 1] == if n == 1 then b[o..e] else Aces(b, e, n - 1)[n - 2];
    }
  }
}
