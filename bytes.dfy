/** Bytes and the byte-string tests the proxy engine applies to captured chunks
    (Go's `strings.HasPrefix` and `strings.Contains` on `string(data)`). */
module Bytes {

  /** One octet of a captured chunk. */
  type byte = x: int | 0 <= x < 256

  /** The octets of an ASCII string literal. */
  function Ascii(s: string): (r: seq<byte>)
    requires forall i :: 0 <= i < |s| ==> s[i] as int < 256
    ensures |r| == |s|
    ensures forall i :: 0 <= i < |s| ==> r[i] == s[i] as int
  {
    seq(|s|, i requires 0 <= i < |s| => s[i] as int)
  }

  /** `s` begins with `p`. */
  predicate HasPrefix(s: seq<byte>, p: seq<byte>)
  {
    |p| <= |s| && s[..|p|] == p
  }

  /** `HasPrefix` byte for byte: `p` agrees with the front of `s`. */
  lemma HasPrefixPointwise(s: seq<byte>, p: seq<byte>)
    ensures HasPrefix(s, p) <==> |p| <= |s| && forall i :: 0 <= i < |p| ==> s[i] == p[i]
  {
    if |p| <= |s| && forall i :: 0 <= i < |p| ==> s[i] == p[i] {
      assert s[..|p|] == p;
    }
  }

  /** `p` occurs in `s` starting at index `i`. */
  predicate OccursAt(s: seq<byte>, p: seq<byte>, i: int)
  {
    0 <= i && i + |p| <= |s| && s[i..i + |p|] == p
  }

  /** Substring search, scanning start positions left to right. */
  function Contains(s: seq<byte>, p: seq<byte>): (r: bool)
    ensures r <==> exists i :: OccursAt(s, p, i)
    decreases |s|
  {
    if |s| < |p| then false
    else if s[..|p|] == p then (assert OccursAt(s, p, 0); true)
    else
      var rest := Contains(s[1..], p);
      assert rest ==> exists i :: OccursAt(s, p, i) by {
        if rest {
          var i :| OccursAt(s[1..], p, i);
          assert s[1..][i..i + |p|] == s[i + 1..i + 1 + |p|];
          assert OccursAt(s, p, i + 1);
        }
      }
      assert (exists i :: OccursAt(s, p, i)) ==> rest by {
        if exists i :: OccursAt(s, p, i) {
          var i :| OccursAt(s, p, i);
          assert i != 0;
          assert s[1..][i - 1..i - 1 + |p|] == s[i..i + |p|];
          assert OccursAt(s[1..], p, i - 1);
        }
      }
      rest
  }

  /** A pattern whose first byte never appears in `s` does not occur in it. */
  lemma NotContainsWithoutFirstByte(s: seq<byte>, p: seq<byte>)
    requires |p| > 0
    requires forall i :: 0 <= i < |s| ==> s[i] != p[0]
    ensures !Contains(s, p)
  {
  }
}
