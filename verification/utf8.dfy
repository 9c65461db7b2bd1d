/** Well-formed UTF-8 (Table 3-7 of the Unicode Standard) and lossy decoding
    as `String::from_utf8_lossy` performs it: every maximal ill-formed
    subpart becomes one U+FFFD. Text is modelled by its UTF-8 bytes, so the
    lossy result is the byte sequence of the resulting string. */
module Utf8 {
  import opened Bytes

  /** U+FFFD REPLACEMENT CHARACTER, encoded. */
  const Replacement: seq<u8> := [0xEF, 0xBF, 0xBD]

  predicate IsContinuation(b: u8) {
    0x80 <= b <= 0xBF
  }

  /** Length of the sequence a lead byte announces; 0 when it can lead none. */
  function SequenceWidth(lead: u8): nat {
    if lead < 0x80 then 1
    else if 0xC2 <= lead <= 0xDF then 2
    else if 0xE0 <= lead <= 0xEF then 3
    else if 0xF0 <= lead <= 0xF4 then 4
    else 0
  }

  /** Whether `b` may follow `lead` as the second byte of a well-formed
      sequence (excludes overlong forms, surrogates and values past U+10FFFF). */
  predicate SecondByteFits(lead: u8, b: u8) {
    if lead == 0xE0 then 0xA0 <= b <= 0xBF
    else if lead == 0xED then 0x80 <= b <= 0x9F
    else if lead == 0xF0 then 0x90 <= b <= 0xBF
    else if lead == 0xF4 then 0x80 <= b <= 0x8F
    else IsContinuation(b)
  }

  /** The first unit of a non-empty byte sequence: a well-formed encoded
      scalar value, or the maximal ill-formed subpart that must be replaced.
      An incomplete sequence cut off by the end of input is one unit. */
  datatype Unit = Unit(len: nat, wellFormed: bool)

  function NextUnit(s: seq<u8>): (u: Unit)
    requires |s| > 0
    ensures 1 <= u.len <= |s| && u.len <= 4
    ensures u.wellFormed ==> u.len == SequenceWidth(s[0])
  {
    var w := SequenceWidth(s[0]);
    if w == 1 then Unit(1, true)
    else if w == 0 then Unit(1, false)
    else if |s| < 2 then Unit(|s|, false)
    else if !SecondByteFits(s[0], s[1]) then Unit(1, false)
    else if w == 2 then Unit(2, true)
    else if |s| < 3 then Unit(|s|, false)
    else if !IsContinuation(s[2]) then Unit(2, false)
    else if w == 3 then Unit(3, true)
    else if |s| < 4 then Unit(|s|, false)
    else if !IsContinuation(s[3]) then Unit(3, false)
    else Unit(4, true)
  }

  /** `s` is well-formed UTF-8. */
  predicate Valid(s: seq<u8>)
    decreases |s|
  {
    s == [] || (NextUnit(s).wellFormed && Valid(s[NextUnit(s).len..]))
  }

  /** `String::from_utf8_lossy(s)`, as bytes. */
  function Lossy(s: seq<u8>): seq<u8>
    decreases |s|
  {
    if s == [] then []
    else
      var u := NextUnit(s);
      (if u.wellFormed then s[..u.len] else Replacement) + Lossy(s[u.len..])
  }

  predicate IsAscii(s: seq<u8>) {
    forall i | 0 <= i < |s| :: s[i] < 0x80
  }

  /** A well-formed unit is recognised from its own bytes alone. */
  lemma NextUnitOfPrefix(s: seq<u8>, t: seq<u8>)
    requires |s| > 0 && NextUnit(s).wellFormed
    ensures NextUnit(s[..NextUnit(s).len] + t) == NextUnit(s)
  {
    var n := NextUnit(s).len;
    var s' := s[..n] + t;
    assert forall i | 0 <= i < n :: s'[i] == s[i];
  }

  /** A well-formed unit followed by well-formed text is well-formed. */
  lemma ValidCons(s: seq<u8>, rest: seq<u8>)
    requires |s| > 0 && NextUnit(s).wellFormed && Valid(rest)
    ensures Valid(s[..NextUnit(s).len] + rest)
  {
    var n := NextUnit(s).len;
    NextUnitOfPrefix(s, rest);
    assert (s[..n] + rest)[n..] == rest;
  }

  lemma ReplacementValid(rest: seq<u8>)
    requires Valid(rest)
    ensures Valid(Replacement + rest)
  {
    assert NextUnit(Replacement).wellFormed && NextUnit(Replacement).len == 3;
    assert Replacement[..3] == Replacement;
    ValidCons(Replacement, rest);
  }

  /** Lossy decoding always yields well-formed text. */
  lemma {:induction false} LossyValid(s: seq<u8>)
    ensures Valid(Lossy(s))
    decreases |s|
  {
    if s != [] {
      var u := NextUnit(s);
      LossyValid(s[u.len..]);
      if u.wellFormed {
        ValidCons(s, Lossy(s[u.len..]));
      } else {
        ReplacementValid(Lossy(s[u.len..]));
      }
    }
  }

  /** Lossy decoding leaves well-formed text alone, and only well-formed
      text: it changes the bytes exactly when they are ill-formed. */
  lemma {:induction false} LossyIdentity(s: seq<u8>)
    ensures Lossy(s) == s <==> Valid(s)
    decreases |s|
  {
    if Valid(s) {
      if s != [] {
        var u := NextUnit(s);
        LossyIdentity(s[u.len..]);
        assert s[..u.len] + s[u.len..] == s;
      }
    } else {
      LossyValid(s);
    }
  }

  /** ASCII text is well-formed UTF-8. */
  lemma {:induction false} AsciiValid(s: seq<u8>)
    requires IsAscii(s)
    ensures Valid(s)
    decreases |s|
  {
    if s != [] {
      assert NextUnit(s).len == 1;
      AsciiValid(s[1..]);
    }
  }
}
