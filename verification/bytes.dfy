/** Shared vocabulary of the scanner model: bytes, the byte classes the
    extractors test for, counting over byte strings, and an Option type
    standing for Python's `None` results. */
module Bytes {

  /** A byte as iterating a Python `bytes` object yields it. */
  type Byte = b: int | 0 <= b < 256

  /** Python's `None` or a value. */
  datatype Option<+T> = None | Some(value: T)

  /** The regex class `[ -~]`: space (0x20) through tilde (0x7E). */
  predicate Printable(b: Byte) {
    0x20 <= b <= 0x7E
  }

  /** The test behind `non_ascii_ratio`: `c > 127`. */
  predicate NonAscii(b: Byte) {
    b > 127
  }

  /** The test of the sampling helper: `x < 32 or x > 126`. */
  predicate NonPrintable(b: Byte) {
    b < 32 || b > 126
  }

  /** How many bytes of `s` satisfy `p` (Python's `sum(1 for x in s if p(x))`). */
  function CountIf(s: seq<Byte>, p: Byte -> bool): (n: nat)
    ensures n <= |s|
    ensures n == 0 <==> forall i :: 0 <= i < |s| ==> !p(s[i])
    ensures n == |s| <==> forall i :: 0 <= i < |s| ==> p(s[i])
  {
    if |s| == 0 then 0
    else (if p(s[0]) then 1 else 0) + CountIf(s[1..], p)
  }

  /** No byte is both above 127 and inside 0x20..0x7E, so the two counts
      together never exceed the length. */
  lemma {:induction false} NonAsciiPrintableDisjoint(s: seq<Byte>)
    ensures CountIf(s, NonAscii) + CountIf(s, Printable) <= |s|
  {
    if |s| > 0 {
      NonAsciiPrintableDisjoint(s[1..]);
    }
  }

  /** `x < 32 or x > 126` is exactly the complement of `[ -~]`: every byte
      is counted by exactly one of the two classes. */
  lemma {:induction false} NonPrintableComplement(s: seq<Byte>)
    ensures CountIf(s, NonPrintable) + CountIf(s, Printable) == |s|
  {
    if |s| > 0 {
      NonPrintableComplement(s[1..]);
    }
  }
}
