/** Printed IPv6 addresses parse back. */
module Ipv6RoundTrip {
  import opened Ipv6Text
  import Ipv6
  import Ipv6Parse

  /** Printing and parsing again gives back the eight words, whatever was in the destination, and stops at
      the terminator. */
  method RoundTrip(a: seq<Word>, words0: seq<Word>) returns (s: string, ok: bool, terminator: int, words: seq<Word>)
    requires |a| == 8 && |words0| == 8
    ensures |s| + 1 <= 46 && s == Text(LayoutOf(a))
    ensures ok && terminator == |s| && words == a
  {
    LayoutStands(a);
    TextFits(LayoutOf(a));
    s := Ipv6.Print(a);
    ok, terminator, words := Ipv6Parse.Parse(s, words0, LayoutOf(a));
  }
}
