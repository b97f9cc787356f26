/** Editing access control lists (rtl/acl.c). */
module Acl {
  import opened AclBytes

  /** STATUS_SUCCESS and the refusals. */
  datatype Status = Success | InvalidParameter | BufferTooSmall | InvalidSid | RevisionMismatch | InvalidAcl
                  | AllottedSpaceExceeded

  const AclHeaderSize := 8
  const MinRevision := 2
  const MaxRevision := 4

  // ----- lists of entries to be added

  /** May an entry of this kind be in a list of this revision (rtl/acl.c:588-600)? */
  predicate TypeAllowed(kind: Byte, revision: nat) {
    kind <= 8 ==> (kind > 4 ==> revision >= 4) && (3 < kind <= 4 ==> revision >= 3)
  }

  /** Every header that the loop over the list meets lies inside of it and has a size of at least a header;
      with a size of zero the loop would not end. */
  predicate Readable(list: seq<Byte>, o: nat)
    decreases |list| - o
  {
    o >= |list|
    || (o + HeaderSize <= |list| && HeaderSize <= SizeAt(list, o) && Readable(list, o + SizeAt(list, o)))
  }

  /** The number of entries from o on, or -1 when one is not allowed or reaches beyond the end. */
  function CountList(list: seq<Byte>, o: nat, revision: nat): (n: int)
    requires Readable(list, o)
    ensures n >= -1
    decreases |list| - o
  {
    if o == |list| then 0
    else if o > |list| || !TypeAllowed(list[o], revision) then -1
    else
      var n := CountList(list, o + SizeAt(list, o), revision);
      if n < 0 then -1 else n + 1
  }

  predicate AllAllowed(aces: seq<seq<Byte>>, revision: nat) {
    forall i {:trigger aces[i]} :: 0 <= i < |aces| ==> aces[i] != [] && TypeAllowed(aces[i][0], revision)
  }

  /** A list is taken exactly when it is made of whole entries of allowed types. */
  lemma {:induction false} CountListMeaning(list: seq<Byte>, o: nat, revision: nat, n: nat)
    requires Readable(list, o)
    ensures CountList(list, o, revision) == n
            <==> Lists(list, o, n) && End(list, o, n) == |list| && AllAllowed(Aces(list, o, n), revision)
    decreases |list| - o
  {
    if o < |list| {
      var e := o + SizeAt(list, o);
      if n > 0 {
        CountListMeaning(list, e, revision, n - 1);
        if Lists(list, o, n) { AllowedFront(list[o..e], Aces(list, e, n - 1), revision); }
      }
    }
  }

  lemma AllowedFront(a: seq<Byte>, rest: seq<seq<Byte>>, revision: nat)
    ensures AllAllowed([a] + rest, revision) <==> a != [] && TypeAllowed(a[0], revision) && AllAllowed(rest, revision)
  {
    var aces := [a] + rest;
    assert aces[0] == a && forall i {:trigger rest[i]} :: 0 <= i < |rest| ==> aces[i + 1] == rest[i];
    if a != [] && TypeAllowed(a[0], revision) && AllAllowed(rest, revision) {
      forall i | 0 <= i < |aces| ensures aces[i] != []
          && TypeAllowed(aces[i][0], revision) { if i > 0 { assert aces[i] == rest[i - 1]; } }
    }
  }

  /** RtlValidSid, for a SID of exactly its own length. */
  predicate ValidSid(sid: seq<Byte>) {
    |sid| >= 8 && sid[0] == 1 && sid[1] <= 15 && |sid| == LengthSid(sid[1])
  }

  /** The entry that RtlpAddKnownAce writes (rtl/acl.c:141-148). */
  function KnownAce(kind: Byte, flags: Byte, mask: seq<Byte>, sid: seq<Byte>): seq<Byte>
    requires ValidSid(sid) && |mask| == 4
  {
    var size := |sid| + 8;
    [kind, flags, size % 256, size / 256] + mask + sid
  }

  /** What it reads back as. */
  lemma KnownAceReads(kind: Byte, flags: Byte, mask: seq<Byte>, sid: seq<Byte>, ace: seq<Byte>)
    requires ValidSid(sid) && |mask| == 4 && ace == KnownAce(kind, flags, mask, sid)
    ensures |ace| == 16 + 4 * sid[1] && SizeAt(ace, 0) == |ace|
    ensures ace[0] == kind && ace[1] == flags && ace[4..8] == mask && ace[8..] == sid
  {
  }

  lemma KnownAceGood(kind: Byte, flags: Byte, mask: seq<Byte>, sid: seq<Byte>)
    requires ValidSid(sid) && |mask| == 4
    ensures Good(KnownAce(kind, flags, mask, sid)) && |KnownAce(kind, flags, mask, sid)| == |sid| + 8
  {
    var a := KnownAce(kind, flags, mask, sid);
    assert a[8] == sid[0] && a[9] == sid[1];
  }

  // ----- the effect of the edits on the bytes

  function Inserted(b: seq<Byte>, at: nat, used: nat, list: seq<Byte>): seq<Byte>
    requires at <= used && used + |list| <= |b|
  {
    b[..at] + list + b[at..used] + b[used + |list|..]
  }

  function ZeroBytes(n: nat): (z: seq<Byte>)
    ensures |z| == n
  {
    seq(n, _ => 0)
  }

  function Deleted(b: seq<Byte>, at: nat, size: nat, used: nat): seq<Byte>
    requires at + size <= used <= |b|
  {
    b[..at] + b[at + size..used] + ZeroBytes(size) + b[used..]
  }

  lemma DeletedEnd(b: seq<Byte>, at: nat, size: nat, used: nat)
    requires at + size <= used <= |b|
    ensures
      var r := Deleted(b, at, size, used);
      |r| == |b| && forall i :: used - size <= i < |r| ==> r[i] == if i < used then 0 else b[i]
  {
  }

  /** The first k of n entries are x, the others z, and those are their bytes. */
  ghost predicate InTwo(b: seq<Byte>, n: nat, k: nat, x: seq<seq<Byte>>, z: seq<seq<Byte>>)
    requires Lists(b, 0, n) && Lists(b, 0, k)
  {
    && k <= n && |x| == k && AllProper(x) && AllProper(z) && Aces(b, 0, n) == x + z && End(b, 0, k) <= End(b, 0, n)
    && Flat(x) == b[..End(b, 0, k)] && Flat(z) == b[End(b, 0, k)..End(b, 0, n)]
  }

  lemma Divided(b: seq<Byte>, n: nat, k: nat) returns (x: seq<seq<Byte>>, z: seq<seq<Byte>>)
    requires Lists(b, 0, n) && k <= n
    ensures Lists(b, 0, k) && InTwo(b, n, k, x, z)
  {
    SplitLists(b, 0, n, k);
    SplitAces(b, 0, n, k);
    var at := End(b, 0, k);
    x, z := Aces(b, 0, k), Aces(b, at, n - k);
    AcesFlat(b, 0, k);
    AcesFlat(b, at, n - k);
    assert b[0..at] == b[..at];
  }

  lemma InsertedStands(b: seq<Byte>, at: nat, used: nat, list: seq<Byte>)
    requires at <= used && used + |list| <= |b|
    ensures Stands(Inserted(b, at, used, list), 0, b[..at] + list + b[at..used]) && |Inserted(b, at, used, list)| == |b|
  {
  }

  lemma DeletedStands(b: seq<Byte>, at: nat, size: nat, used: nat)
    requires at + size <= used <= |b|
    ensures Stands(Deleted(b, at, size, used), 0, b[..at] + b[at + size..used]) && |Deleted(b, at, size, used)| == |b|
  {
  }

  /** The entries of t go in before the k-th of s. */
  function Spliced(s: seq<seq<Byte>>, k: nat, t: seq<seq<Byte>>): seq<seq<Byte>>
    requires k <= |s|
  {
    s[..k] + t + s[k..]
  }

  /** Inserting bytes between entries inserts the entries they hold. */
  lemma InsertedAces(b: seq<Byte>, n: nat, k: nat, list: seq<Byte>, count: nat, b': seq<Byte>, n': nat)
    requires Lists(b, 0, n) && k <= n && Lists(b, 0, k) && Lists(list, 0, count) && End(list, 0, count) == |list|
    requires End(b, 0, n) + |list| <= |b| && End(b, 0, k) <= End(b, 0, n)
    requires b' == Inserted(b, End(b, 0, k), End(b, 0, n), list) && n' == n + count
    ensures Lists(b', 0, n') && End(b', 0, n') == End(b, 0, n) + |list|
    ensures Aces(b', 0, n') == Spliced(Aces(b, 0, n), k, Aces(list, 0, count))
  {
    var at, used := End(b, 0, k), End(b, 0, n);
    var all := SplicedBytes(b, n, k, list, count, at, used);
    InsertedStands(b, at, used, list);
    ReadBack(b', all, n', b[..at] + list + b[at..used]);
  }

  /** The bytes of the entries after an insertion. */
  lemma SplicedBytes(b: seq<Byte>, n: nat, k: nat, list: seq<Byte>, count: nat, at: nat, used: nat)
      returns (all: seq<seq<Byte>>)
    requires Lists(b, 0, n) && k <= n && Lists(b, 0, k) && Lists(list, 0, count) && End(list, 0, count) == |list|
    requires at == End(b, 0, k) && used == End(b, 0, n)
    ensures at <= used && all == Spliced(Aces(b, 0, n), k, Aces(list, 0, count)) && |all| == n + count
    ensures AllProper(all) && Flat(all) == b[..at] + list + b[at..used]
  {
    var x, z := Divided(b, n, k);
    var y := Aces(list, 0, count);
    AcesFlat(list, 0, count);
    assert list[0..|list|] == list;
    FlatThree(x, y, z);
    Halves(x, z, k);
    all := x + y + z;
  }

  /** Proper entries at the front read back. */
  lemma ReadBack(b: seq<Byte>, aces: seq<seq<Byte>>, n: nat, bytes: seq<Byte>)
    requires AllProper(aces) && n == |aces| && bytes == Flat(aces) && Stands(b, 0, bytes)
    ensures Lists(b, 0, n) && End(b, 0, n) == |bytes| && Aces(b, 0, n) == aces
  {
    FlatReads(b, 0, aces);
  }

  lemma Halves(x: seq<seq<Byte>>, z: seq<seq<Byte>>, k: nat)
    requires |x| == k
    ensures (x + z)[..k] == x && (x + z)[k..] == z
  {
  }

  lemma FlatThree(x: seq<seq<Byte>>, y: seq<seq<Byte>>, z: seq<seq<Byte>>)
    requires AllProper(x) && AllProper(y) && AllProper(z)
    ensures Flat(x + y + z) == Flat(x) + Flat(y) + Flat(z) && AllProper(x + y + z)
  {
    FlatConcat(x, y);
    FlatConcat(x + y, z);
    BothProper(x, y);
    BothProper(x + y, z);
  }

  /** Deleting the bytes of an entry deletes the entry. */
  lemma DeletedAces(b: seq<Byte>, n: nat, k: nat, b': seq<Byte>, n': nat)
    requires Lists(b, 0, n) && k < n && Lists(b, 0, k) && n' == n - 1
    requires
      var at := End(b, 0, k);
      && at + HeaderSize <= |b| && at + SizeAt(b, at) <= End(b, 0, n)
      && b' == Deleted(b, at, SizeAt(b, at), End(b, 0, n))
    ensures
      var aces := Aces(b, 0, n);
      && |b'| == |b| && Lists(b', 0, n') && End(b', 0, n') == End(b, 0, n) - |aces[k]| && |aces[k]| >= HeaderSize
      && Aces(b', 0, n') == aces[..k] + aces[k + 1..]
  {
    var at, used := End(b, 0, k), End(b, 0, n);
    var size := SizeAt(b, at);
    var rest := WithoutAce(b, n, k, at, at + size, used);
    DeletedReads(b, at, size, used, rest, b', n');
  }

  lemma DeletedReads(b: seq<Byte>, at: nat, size: nat, used: nat, rest: seq<seq<Byte>>, b': seq<Byte>, n': nat)
    requires at + size <= used <= |b| && b' == Deleted(b, at, size, used) && n' == |rest|
    requires AllProper(rest) && Flat(rest) == b[..at] + b[at + size..used]
    ensures |b'| == |b| && Lists(b', 0, n') && End(b', 0, n') == used - size && Aces(b', 0, n') == rest
  {
    var bytes := b[..at] + b[at + size..used];
    DeletedStands(b, at, size, used);
    ReadBack(b', rest, n', bytes);
  }

  /** The other entries and their bytes. */
  lemma WithoutAce(b: seq<Byte>, n: nat, k: nat, at: nat, next: nat, used: nat) returns (rest: seq<seq<Byte>>)
    requires Lists(b, 0, n) && k < n && Lists(b, 0, k) && at == End(b, 0, k) && at + HeaderSize <= |b|
        && next == at + SizeAt(b, at)
    requires used == End(b, 0, n)
    ensures next <= used && AllProper(rest) && Flat(rest) == b[..at] + b[next..used] && |rest| == n - 1
    ensures var aces := Aces(b, 0, n); rest == aces[..k] + aces[k + 1..] && |aces[k]| == next - at >= HeaderSize
  {
    NextAce(b, 0, n, k);
    SplitLists(b, 0, n, k);
    var x, z0 := Divided(b, n, k);
    var x1, z := Divided(b, n, k + 1);
    Parts(Aces(b, 0, n), x, z0, x1, z, k);
    FlatConcat(x, z);
    BothProper(x, z);
    rest := x + z;
  }

  lemma Parts(s: seq<seq<Byte>>, x: seq<seq<Byte>>, z0: seq<seq<Byte>>, x1: seq<seq<Byte>>, z: seq<seq<Byte>>, k: nat)
    requires s == x + z0 == x1 + z && |x| == k && |x1| == k + 1
    ensures x == s[..k] && z == s[k + 1..]
  {
    Halves(x, z0, k);
    Halves(x1, z, k + 1);
  }

  lemma BothProper(x: seq<seq<Byte>>, z: seq<seq<Byte>>)
    requires AllProper(x) && AllProper(z)
    ensures AllProper(x + z)
  {
    var s := x + z;
    forall i | 0 <= i < |s| ensures Proper(s[i]) {
      if i < |x| { assert s[i] == x[i]; } else { assert s[i] == z[i - |x|]; }
    }
  }

  /** A list of good entries with room behind them is accepted. */
  lemma GoodAccepted(b: seq<Byte>, n: nat)
    requires Lists(b, 0, n) && AllGood(Aces(b, 0, n))
        && (n == 0 || End(b, 0, n) < |b| || |Aces(b, 0, n)[n - 1]| > HeaderSize)
    ensures AllOk(b, 0, n)
  {
    AllOkIs(b, 0, n);
    RoomBehindIs(b, 0, n);
  }

  lemma AcceptedGood(b: seq<Byte>, n: nat)
    requires Lists(b, 0, n) && AllOk(b, 0, n)
    ensures AllGood(Aces(b, 0, n))
  {
    AllOkIs(b, 0, n);
  }

  // ----- lists in memory

  /** An ACL: its header's fields, and the bytes behind the header. */
  class AccessList {
    var AclRevision: nat
    var AceCount: nat
    const AclSize: nat
    const area: array<Byte>

    /** The fields have their widths, and the memory reaches as far as the header says. */
    ghost predicate Shaped()
      reads this
    {
      && AclSize < 0x1_0000 && AceCount < 0x1_0000 && AclRevision < 256
      && area.Length == if AclSize < AclHeaderSize then 0 else AclSize - AclHeaderSize
    }

    /** What RtlValidAcl accepts. */
    ghost predicate Accepted()
      reads this, area
    {
      && MinRevision <= AclRevision <= MaxRevision && AclSize % 2 == 0 && AclHeaderSize <= AclSize
      && AllOk(area[..], 0, AceCount)
    }

    /** An accepted list, none of whose compound and object entries is shorter than its header. */
    ghost predicate Sound()
      reads this, area
      ensures Sound() ==> Lists(area[..], 0, AceCount)
    {
      Shaped() && Accepted() && (ListsExactly(area[..], 0, AceCount); LongEnough(area[..], 0, AceCount))
    }

    lemma SoundIs()
      ensures Sound() <==> Shaped() && Accepted() && Lists(area[..], 0, AceCount)
      ensures Sound() ==> InReach(area[..], 0, AceCount)
    {
      if Accepted() { ListsExactly(area[..], 0, AceCount); }
      if Sound() { WalkIs(area[..], 0, AceCount); }
    }

    /** The entries of the list. */
    ghost function Entries(): seq<seq<Byte>>
      reads this, area
      requires Lists(area[..], 0, AceCount)
    {
      Aces(area[..], 0, AceCount)
    }

    /** The bytes in use behind the header. */
    ghost function InUse(): nat
      reads this, area
      requires Lists(area[..], 0, AceCount)
    {
      End(area[..], 0, AceCount)
    }

    method Size(o: nat) returns (size: nat)
      requires o + HeaderSize <= area.Length
      ensures size == SizeAt(area[..], o)
    {
      var low: int, high: int := area[o + 2], area[o + 3];
      size := low + 256 * high;
    }

    /** One entry of RtlValidAcl (rtl/acl.c:871-952). */
    method CheckAce(o: nat) returns (ok: bool)
      ensures ok <==> AceOk(area[..], o)
    {
      // space for this header?
      if o + HeaderSize >= area.Length { return false; }
      var size := Size(o);
      if size % 2 != 0 || o + size > area.Length { return false; }
      var kind := area[o];
      if kind <= MaxV2Type {
        if size % 4 != 0 || size < HeaderSize { return false; }
        // a SID that the entry does not reach is refused in any case
        if size < SidOffset + 2 { return false; }
        var revision, count: int := area[o + SidOffset], area[o + SidOffset + 1];
        ok := revision == 1 && count <= 15 && size >= HeaderSize + LengthSid(count);
      } else if kind == CompoundType || MinObjectType <= kind <= MaxObjectType {
        ok := true;
      } else {
        ok := size >= HeaderSize;
      }
    }

    /** RtlValidAcl (rtl/acl.c:837-964). */
    method ValidAcl() returns (ok: bool)
      requires Shaped()
      ensures ok <==> Accepted()
    {
      if AclRevision < MinRevision || AclRevision > MaxRevision { return false; }
      if AclSize % 2 != 0 || AclSize < AclHeaderSize { return false; }
      var o, i := 0, 0;
      while i < AceCount
        invariant 0 <= i <= AceCount && AllOk(area[..], 0, AceCount) == AllOk(area[..], o, AceCount - i)
      {
        var good := CheckAce(o);
        if !good { return false; }
        var size := Size(o);
        o, i := o + size, i + 1;
      }
      ok := true;
    }

    /** RtlFirstFreeAce (rtl/acl.c:20-46) asks nothing of the list but that its headers can be read: it fails if
        an entry starts beyond the list, and finds no free place, -1, if the last one ends there. */
    method FirstFreeAce() returns (ok: bool, free: int)
      requires Shaped() && InReach(area[..], 0, AceCount)
      ensures ok <==> Walk(area[..], 0, AceCount) >= 0
      ensures ok ==> free == if AclHeaderSize + Walk(area[..], 0, AceCount) <= AclSize
          then Walk(area[..], 0, AceCount) else -1
      ensures Sound() ==> ok && free == InUse()
    {
      if Sound() { WalkIs(area[..], 0, AceCount); }
      var o: nat, i: nat := 0, 0;
      while i < AceCount
        invariant 0 <= i <= AceCount && InReach(area[..], o, AceCount - i)
        invariant Walk(area[..], 0, AceCount) == Walk(area[..], o, AceCount - i)
      {
        if o >= area.Length { return false, -1; }
        var size := Size(o);
        o, i := o + size, i + 1;
      }
      ok, free := true, if AclHeaderSize + o <= AclSize then o else -1;
    }

    /** The loops over the entries that ask for no end (rtl/acl.c:619-624, 658-660). */
    method Skip(count: nat) returns (o: nat)
      requires Sound() && count <= AceCount
      ensures Lists(area[..], 0, count) && o == End(area[..], 0, count)
    {
      var i := 0;
      o := 0;
      while i < count
        invariant 0 <= i <= count && Lists(area[..], 0, i) && o == End(area[..], 0, i)
      {
        NextAce(area[..], 0, AceCount, i);
        var size := Size(o);
        o, i := o + size, i + 1;
      }
    }

    /** RtlGetAce (rtl/acl.c:522-559): where the entry at the index stands. It asks for a known revision, and that no
        entry up to this one starts beyond the list. */
    method GetAce(index: nat) returns (status: Status, o: nat)
      requires Shaped() && InReach(area[..], 0, AceCount)
      ensures
        var known := MinRevision <= AclRevision <= MaxRevision && index < AceCount;
        && (status == Success || status == InvalidParameter)
        && (status == Success <==> known && 0 <= Place(area[..], AceCount, index) < area.Length)
        && (status == Success ==> o == Place(area[..], AceCount, index))
      ensures Sound() ==> (status == Success <==> index < AceCount)
      ensures Sound() && status == Success ==>
                o + HeaderSize <= area.Length && o + SizeAt(area[..], o) <= area.Length
                && area[o..o + SizeAt(area[..], o)] == Entries()[index]
    {
      if AclRevision < MinRevision || AclRevision > MaxRevision || index >= AceCount {
        return InvalidParameter, 0;
      }
      WalkFront(area[..], 0, AceCount, index);
      if Sound() {
        NextAce(area[..], 0, AceCount, index);
        WalkIs(area[..], 0, index);
      }
      var i: nat := 0;
      o := 0;
      while i < index
        invariant 0 <= i <= index && InReach(area[..], o, index - i)
        invariant Walk(area[..], 0, index) == Walk(area[..], o, index - i)
      {
        if o >= area.Length { return InvalidParameter, o; }
        var size := Size(o);
        o, i := o + size, i + 1;
      }
      status := if o < area.Length then Success else InvalidParameter;
    }

    /** RtlpAddData (rtl/acl.c:50-65), its overlapping copy taken as a move. */
    method AddData(list: seq<Byte>, at: nat, offset: nat)
      requires at + offset + |list| <= area.Length
      modifies area
      ensures area[..] == Inserted(old(area[..]), at, at + offset, list)
    {
      // shift the buffer down
      if offset > 0 {
        forall i | at <= i < at + offset { area[i + |list|] := area[i]; }
      }
      forall i | 0 <= i < |list| { area[at + i] := list[i]; }
    }

    /** RtlpDeleteData (rtl/acl.c:69-86). */
    method DeleteData(at: nat, size: nat, offset: nat)
      requires size <= offset && at + offset <= area.Length
      modifies area
      ensures area[..] == Deleted(old(area[..]), at, size, at + offset)
    {
      // move the data up
      if size < offset {
        forall i | at <= i < at + offset - size { area[i] := area[i + size]; }
      }
      // zero the rest
      if offset - size < offset {
        forall i | at + offset - size <= i < at + offset { area[i] := 0; }
      }
    }

    /** The loop over the entries to be added (rtl/acl.c:583-610): their number, or -1. */
    method CheckList(list: seq<Byte>, revision: nat) returns (n: int)
      requires Readable(list, 0)
      ensures n == CountList(list, 0, revision)
    {
      var o := 0;
      n := 0;
      while o < |list|
        invariant n >= 0 && Readable(list, o)
        invariant CountList(list, 0, revision) == if CountList(list, o, revision) < 0 then -1
            else n + CountList(list, o, revision)
        decreases |list| - o
      {
        if list[o] <= 8 {
          if list[o] > 4 {
            if revision < 4 { return -1; }
          } else if list[o] > 3 {
            if revision < 3 { return -1; }
          }
        }
        var low: int, high: int := list[o + 2], list[o + 3];
        o, n := o + (low + 256 * high), n + 1;
      }
      if o > |list| { n := -1; }
    }

    /** RtlAddAce (rtl/acl.c:566-636): the entries of the list go in before the one at the index, or at the
        end. */
    method AddAce(revision: nat, index: nat, list: seq<Byte>) returns (status: Status)
      requires Shaped() && (Accepted() ==> Sound()) && Readable(list, 0)
      modifies this`AceCount, this`AclRevision, area
      ensures status == if !old(Accepted()) || CountList(list, 0, revision) < 0 then InvalidParameter
                        else if old(InUse()) + |list| > area.Length then BufferTooSmall
                        else Success
      ensures status != Success ==>
                area[..] == old(area[..]) && AceCount == old(AceCount) && AclRevision == old(AclRevision)
      ensures status == Success ==>
                var k := if index < old(AceCount) then index else old(AceCount);
                var aces, n := old(Entries()), CountList(list, 0, revision);
                && AceCount == old(AceCount) + n && Lists(list, 0, n) && Lists(area[..], 0, AceCount)
                && Entries() == Spliced(aces, k, Aces(list, 0, n))
                && InUse() == old(InUse()) + |list| && area[InUse()..] == old(area[InUse() + |list|..])
                && AclRevision == (if revision < old(AclRevision) then revision else old(AclRevision)) && Shaped()
                && (Accepted() <==>
                    AclRevision >= MinRevision && AllGood(Aces(list, 0, n)) && RoomBehind(area[..], 0, AceCount))
    {
      var valid := ValidAcl();
      if !valid { return InvalidParameter; }
      SoundIs();
      var ok, free := FirstFreeAce();
      var n := CheckList(list, revision);
      if n < 0 { return InvalidParameter; }
      if free + |list| > area.Length { return BufferTooSmall; }
      CountListMeaning(list, 0, revision, n);
      Insert(if index < AceCount then index else AceCount, free, list, n);
      AclRevision := if revision < AclRevision then revision else AclRevision;
      status := Success;
    }

    /** Go down the list until the index is found, and add the data there (rtl/acl.c:619-634). */
    method Insert(k: nat, free: nat, list: seq<Byte>, n: nat)
      requires Sound() && k <= AceCount && free == InUse() && free + |list| <= area.Length
      requires Lists(list, 0, n) && End(list, 0, n) == |list|
      modifies this`AceCount, area
      ensures Grown(old(area[..]), old(AceCount), k, list, n, area[..], AceCount)
    {
      var at := Skip(k);
      ghost var b, n0 := area[..], AceCount;
      SplitLists(b, 0, n0, k);
      AddData(list, at, free - at);
      AceCount := AceCount + n;
      InsertedAll(b, n0, k, list, n, area[..], AceCount);
    }

    /** RtlDeleteAce (rtl/acl.c:643-670): the entry at the index goes, the bytes it frees at the end become
        zero, and the list is still accepted. */
    method DeleteAce(index: nat) returns (status: Status)
      requires Shaped() && (Accepted() ==> Sound())
      modifies this`AceCount, area
      ensures status == if !old(Accepted()) || index >= old(AceCount) then InvalidParameter else Success
      ensures status != Success ==> area[..] == old(area[..]) && AceCount == old(AceCount)
      ensures status == Success ==>
                var aces := old(Entries());
                && Sound() && AceCount == old(AceCount) - 1 && Entries() == aces[..index] + aces[index + 1..]
                && InUse() == old(InUse()) - |aces[index]|
      ensures status == Success ==>
                forall i :: InUse() <= i < area.Length ==>
                          area[i] == if i < old(InUse()) then 0 else old(area[i])
    {
      var valid := ValidAcl();
      if !valid || AceCount <= index { return InvalidParameter; }
      SoundIs();
      var ok, free := FirstFreeAce();
      Remove(index, free);
      SoundIs();
      status := Success;
    }

    /** Enumerate until the entry is reached, and delete its data (rtl/acl.c:658-668). */
    method Remove(index: nat, free: nat)
      requires Sound() && index < AceCount && free == InUse()
      modifies this`AceCount, area
      ensures Shrunk(old(area[..]), old(AceCount), index, area[..], AceCount)
    {
      var at := Skip(index);
      ghost var b, n := area[..], AceCount;
      NextAce(b, 0, n, index);
      SplitLists(b, 0, n, index + 1);
      var size := Size(at);
      DeleteData(at, size, free - at);
      AceCount := AceCount - 1;
      DeletedAll(b, n, index, at, size, free, area[..], AceCount);
    }

    method WriteBytes(at: nat, bytes: seq<Byte>)
      requires at + |bytes| <= area.Length
      modifies area
      ensures area[..at] == old(area[..at]) && area[at..at + |bytes|] == bytes
      ensures area[at + |bytes|..] == old(area[at + |bytes|..])
    {
      forall i | 0 <= i < |bytes| { area[at + i] := bytes[i]; }
      forall i | 0 <= i < |bytes| ensures area[at..at + |bytes|][i] == bytes[i] {
        assert area[at + i] == bytes[i];
      }
    }

    /** Write an entry behind the others. */
    method Append(free: nat, ace: seq<Byte>)
      requires Sound() && free == InUse() && free + |ace| <= area.Length && Good(ace) && |ace| > HeaderSize
      modifies this`AceCount, area
      ensures Sound() && AceCount == old(AceCount) + 1 && Entries() == old(Entries()) + [ace]
      ensures InUse() == old(InUse()) + |ace| && area[free + |ace|..] == old(area[free + |ace|..])
    {
      ghost var b := area[..];
      WriteBytes(free, ace);
      AppendedAccepted(b, AceCount, ace, area[..]);
      CountBound(area[..], 0, AceCount + 1);
      AceCount := AceCount + 1;
      SoundIs();
    }

    /** RtlpAddKnownAce (rtl/acl.c:90-154): an entry for the SID goes in at the end, and the list is still
        accepted. */
    method AddKnownAce(revision: nat, flags: nat, mask: seq<Byte>, sid: seq<Byte>, kind: Byte) returns (status: Status)
      requires Shaped() && (Accepted() ==> Sound()) && |mask| == 4 && kind <= MaxV2Type && |sid| >= 8
          && |sid| >= LengthSid(sid[1])
      modifies this`AceCount, this`AclRevision, area
      ensures
        var length := LengthSid(sid[1]);
        status == if sid[0] != 1 || sid[1] > 15 then InvalidSid
                  else if old(AclRevision) > MaxRevision || revision > MaxRevision then RevisionMismatch
                  else if !FlagsAllowed(flags, kind) then InvalidParameter
                  else if !old(Accepted()) then InvalidAcl
                  else if old(InUse()) + length + 8 > area.Length then AllottedSpaceExceeded
                  else Success
      ensures status != Success ==>
                area[..] == old(area[..]) && AceCount == old(AceCount) && AclRevision == old(AclRevision)
      ensures status == Success ==>
                && Sound() && AceCount == old(AceCount) + 1 && flags < 256
                && Entries() == old(Entries()) + [KnownAce(kind, flags, mask, sid[..LengthSid(sid[1])])]
                && AclRevision == if revision < old(AclRevision) then old(AclRevision) else revision
      ensures status == Success ==>
                var ace := Entries()[old(AceCount)];
                && |ace| == 16 + 4 * sid[1] && SizeAt(ace, 0) == |ace| && ace[0] == kind && ace[1] as int == flags
                && ace[4..8] == mask && ace[8..] == sid[..8 + 4 * sid[1]]
                && InUse() == old(InUse()) + |ace| && area[InUse()..] == old(area[InUse() + 16 + 4 * sid[1]..])
    {
      var length := LengthSid(sid[1]);
      if sid[0] != 1 || sid[1] > 15 { return InvalidSid; }
      if AclRevision > MaxRevision || revision > MaxRevision { return RevisionMismatch; }
      if !FlagsAllowed(flags, kind) { return InvalidParameter; }
      var valid := ValidAcl();
      if !valid { return InvalidAcl; }
      SoundIs();
      var ok, free := FirstFreeAce();
      if free + length + 8 > area.Length { return AllottedSpaceExceeded; }
      var ace := KnownAce(kind, flags, mask, sid[..length]);
      KnownAceGood(kind, flags, mask, sid[..length]);
      KnownAceReads(kind, flags, mask, sid[..length], ace);
      Append(free, ace);
      AclRevision := if revision < AclRevision then AclRevision else revision;
      SoundIs();
      status := Success;
    }
  }

  /** VALID_INHERIT_FLAGS, and for audit entries the two flags of the audited outcomes. */
  predicate FlagsAllowed(flags: nat, kind: Byte) {
    flags < 0x20 || (kind == 2 && flags < 0x100 && flags % 0x40 < 0x20)
  }

  lemma {:induction false} CountBound(b: seq<Byte>, o: nat, n: nat)
    requires Lists(b, o, n)
    ensures HeaderSize * n <= |b| - o
    decreases n
  {
    if n > 0 { CountBound(b, o + SizeAt(b, o), n - 1); }
  }

  lemma InsertedTail(b: seq<Byte>, at: nat, used: nat, list: seq<Byte>)
    requires at <= used && used + |list| <= |b|
    ensures Inserted(b, at, used, list)[used + |list|..] == b[used + |list|..]
  {
  }

  /** After an insertion the list is accepted exactly when the new entries are good and no bare header stands
      at the very end. */
  lemma InsertedAccepted(s: seq<seq<Byte>>, k: nat, t: seq<seq<Byte>>, b': seq<Byte>, n': nat)
    requires AllGood(s) && k <= |s| && Lists(b', 0, n') && |b'| < 0x1_0000 && Aces(b', 0, n') == Spliced(s, k, t)
    ensures AllOk(b', 0, n') <==> AllGood(t) && RoomBehind(b', 0, n')
    ensures n' < 0x1_0000
  {
    AllOkIs(b', 0, n');
    GoodInserted(s, k, t);
    CountBound(b', 0, n');
  }

  /** The list is as before, with the entries of another list inserted. */
  ghost predicate Grown(b: seq<Byte>, n: nat, k: nat, list: seq<Byte>, count: nat, b': seq<Byte>, n': nat)
    requires Lists(b, 0, n) && Lists(list, 0, count) && k <= n
  {
    && Lists(b', 0, n') && n' == n + count < 0x1_0000 && |b'| == |b|
    && End(b', 0, n') == End(b, 0, n) + |list| && b'[End(b', 0, n')..] == b[End(b', 0, n')..]
    && Aces(b', 0, n') == Spliced(Aces(b, 0, n), k, Aces(list, 0, count))
    && (AllOk(b', 0, n') <==> AllGood(Aces(list, 0, count)) && RoomBehind(b', 0, n'))
  }

  lemma InsertedAll(b: seq<Byte>, n: nat, k: nat, list: seq<Byte>, count: nat, b': seq<Byte>, n': nat)
    requires Lists(b, 0, n) && AllOk(b, 0, n) && k <= n && Lists(b, 0, k) && Lists(list, 0, count)
        && End(list, 0, count) == |list|
    requires End(b, 0, n) + |list| <= |b| < 0x1_0000 && End(b, 0, k) <= End(b, 0, n) && n' == n + count
    requires b' == Inserted(b, End(b, 0, k), End(b, 0, n), list)
    ensures Grown(b, n, k, list, count, b', n')
  {
    InsertedAces(b, n, k, list, count, b', n');
    AcceptedGood(b, n);
    InsertedAccepted(Aces(b, 0, n), k, Aces(list, 0, count), b', n');
    InsertedTail(b, End(b, 0, k), End(b, 0, n), list);
  }

  lemma GoodInserted(s: seq<seq<Byte>>, k: nat, t: seq<seq<Byte>>)
    requires AllGood(s) && k <= |s|
    ensures AllGood(Spliced(s, k, t)) <==> AllGood(t)
  {
    var r := Spliced(s, k, t);
    assert forall i {:trigger t[i]} :: 0 <= i < |t| ==> r[k + i] == t[i];
    if AllGood(t) {
      forall i | 0 <= i < |r| ensures Good(r[i]) {
        if i < k { assert r[i] == s[i]; } else if i < k + |t| { assert r[i] == t[i - k]; }
            else { assert r[i] == s[i - |t|]; }
      }
    }
    if AllGood(r) {
      forall i | 0 <= i < |t| ensures Good(t[i]) { assert r[k + i] == t[i]; }
    }
  }

  /** The list is as before, without the k-th entry. */
  ghost predicate Shrunk(b: seq<Byte>, n: nat, k: nat, b': seq<Byte>, n': nat)
    requires Lists(b, 0, n) && k < n
  {
    && Lists(b', 0, n') && n' == n - 1 && |b'| == |b| && AllOk(b', 0, n')
    && End(b', 0, n') == End(b, 0, n) - |Aces(b, 0, n)[k]|
    && Aces(b', 0, n') == Aces(b, 0, n)[..k] + Aces(b, 0, n)[k + 1..]
    && forall i :: End(b', 0, n') <= i < |b'| ==> b'[i] == if i < End(b, 0, n) then 0 else b[i]
  }

  lemma DeletedAll(b: seq<Byte>, n: nat, k: nat, at: nat, size: nat, used: nat, b': seq<Byte>, n': nat)
    requires Lists(b, 0, n) && AllOk(b, 0, n) && k < n && Lists(b, 0, k) && n' == n - 1
    requires at == End(b, 0, k) && used == End(b, 0, n) && at + HeaderSize <= |b| && size == SizeAt(b, at)
    requires at + size <= used <= |b| && b' == Deleted(b, at, size, used)
    ensures Shrunk(b, n, k, b', n')
  {
    DeletedAces(b, n, k, b', n');
    NextAce(b, 0, n, k);
    DeletedEnd(b, at, size, used);
    AcceptedGood(b, n);
    DeletedAccepted(Aces(b, 0, n), k, b', n');
  }

  lemma DeletedAccepted(aces: seq<seq<Byte>>, k: nat, b': seq<Byte>, n': nat)
    requires AllGood(aces) && k < |aces| && Lists(b', 0, n') && End(b', 0, n') < |b'|
    requires Aces(b', 0, n') == aces[..k] + aces[k + 1..]
    ensures AllOk(b', 0, n')
  {
    var rest := Aces(b', 0, n');
    forall i | 0 <= i < n' ensures Good(rest[i]) {
      assert rest[i] == aces[if i < k then i else i + 1];
    }
    GoodAccepted(b', n');
  }

  /** Writing a good entry behind the others appends it. */
  lemma AppendedAccepted(b: seq<Byte>, n: nat, ace: seq<Byte>, b': seq<Byte>)
    requires Lists(b, 0, n) && AllOk(b, 0, n) && Good(ace) && |ace| > HeaderSize && |b'| == |b|
    requires var e := End(b, 0, n); e + |ace| <= |b| && b'[..e] == b[..e] && b'[e..e + |ace|] == ace
    ensures Lists(b', 0, n + 1) && Aces(b', 0, n + 1) == Aces(b, 0, n) + [ace] && AllOk(b', 0, n + 1)
    ensures End(b', 0, n + 1) == End(b, 0, n) + |ace|
  {
    var e, aces := End(b, 0, n), Aces(b, 0, n);
    AcceptedGood(b, n);
    var all, bytes := aces + [ace], b[..e] + ace;
    AppendedBytes(b, n, ace, b', e, aces, bytes);
    ReadBack(b', all, n + 1, bytes);
    GoodAppended(aces, ace);
    GoodAccepted(b', n + 1);
  }

  lemma AppendedBytes(b: seq<Byte>, n: nat, ace: seq<Byte>, b': seq<Byte>, e: nat, aces: seq<seq<Byte>>,
      bytes: seq<Byte>)
    requires Lists(b, 0, n) && e == End(b, 0, n) && aces == Aces(b, 0, n) && Proper(ace) && bytes == b[..e] + ace
    requires e + |ace| <= |b'| == |b| && b'[..e] == b[..e] && b'[e..e + |ace|] == ace
    ensures AllProper(aces + [ace]) && Flat(aces + [ace]) == bytes && Stands(b', 0, bytes)
  {
    AcesFlat(b, 0, n);
    FlatConcat(aces, [ace]);
    assert Flat([ace]) == ace;
    assert b'[0..e] == b'[..e] && b[0..e] == b[..e];
    StandsParts(b', 0, Flat(aces), ace);
    BothProper(aces, [ace]);
  }

  lemma GoodAppended(aces: seq<seq<Byte>>, ace: seq<Byte>)
    requires AllGood(aces) && Good(ace)
    ensures AllGood(aces + [ace])
  {
    var all := aces + [ace];
    forall i | 0 <= i < |all| ensures Good(all[i]) { if i < |aces| { assert all[i] == aces[i]; } }
  }

  /** Adding one good entry, longer than a header, and deleting it again leaves the entries as they were and
      as many bytes in use; only entries of four bytes at the very end can keep the list from being accepted
      in between. */
  method AddThenDelete(acl: AccessList, revision: nat, index: nat, ace: seq<Byte>)
      returns (added: Status, deleted: Status)
    requires acl.Sound() && Good(ace) && revision >= MinRevision
    modifies acl`AceCount, acl`AclRevision, acl.area
    ensures added == Success && deleted == Success ==>
              acl.Sound() && acl.Entries() == old(acl.Entries()) && acl.InUse() == old(acl.InUse())
    ensures added == Success && old(acl.InUse()) + |ace| < acl.area.Length ==> deleted == Success
  {
    OneAce(ace, revision);
    added := acl.AddAce(revision, index, ace);
    deleted := added;
    if added == Success {
      RoomBehindIs(acl.area[..], 0, acl.AceCount);
      acl.SoundIs();
      var k := if index < acl.AceCount - 1 then index else acl.AceCount - 1;
      deleted := acl.DeleteAce(k);
    }
  }

  lemma OneAce(ace: seq<Byte>, revision: nat)
    requires Good(ace)
    ensures Readable(ace, 0) && Lists(ace, 0, 1) && End(ace, 0, 1) == |ace| && Aces(ace, 0, 1) == [ace]
    ensures CountList(ace, 0, revision) in {1, -1} && AllGood([ace])
  {
    assert ace[0..|ace|] == ace;
  }
}
