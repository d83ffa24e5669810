/**
 UTF-8 as section 3 of RFC 3629 defines it: the encoder, one step of the standard library's
 validator, and the two readings of a byte string that the terminal parser relies on
 (strict validation and lossy replacement).
 */
module Utf8 {

  type Byte = b: int | 0 <= b < 0x100

  /** A Unicode scalar value, Rust's `char`. */
  type Scalar = c: int | 0 <= c < 0xD800 || 0xE000 <= c < 0x11_0000

  const REPLACEMENT: Scalar := 0xFFFD

  /** `char::is_control`: the C0 and C1 ranges and DEL. */
  predicate IsControl(c: Scalar) {
    c < 0x20 || 0x7F <= c < 0xA0
  }

  function Encode(c: Scalar): seq<Byte> {
    var sextet0: Byte := 0x80 + c % 0x40;
    var sextet1: Byte := 0x80 + c / 0x40 % 0x40;
    var sextet2: Byte := 0x80 + c / 0x1000 % 0x40;
    if c < 0x80 then
      var lead: Byte := c;
      [lead]
    else if c < 0x800 then
      var lead: Byte := 0xC0 + c / 0x40;
      [lead, sextet0]
    else if c < 0x1_0000 then
      var lead: Byte := 0xE0 + c / 0x1000;
      [lead, sextet1, sextet0]
    else
      var lead: Byte := 0xF0 + c / 0x4_0000;
      [lead, sextet2, sextet1, sextet0]
  }

  function EncodeAll(cs: seq<Scalar>): seq<Byte> {
    if cs == [] then [] else Encode(cs[0]) + EncodeAll(cs[1..])
  }

  /** What the validator finds at the start of a nonempty byte string. */
  datatype Lead =
    | Whole(c: Scalar, len: nat)  // a complete character
    | Incomplete                  // ends inside a character that could still be completed
    | Malformed(len: nat)         // `error_len() == Some(len)`

  predicate IsContinuation(b: Byte) {
    0x80 <= b < 0xC0
  }

  /** Bytes that may follow the lead byte `first`; RFC 3629 narrows four of the ranges. */
  predicate SecondByteFits(first: Byte, second: Byte) {
    IsContinuation(second)
    && (first == 0xE0 ==> 0xA0 <= second)
    && (first == 0xED ==> second < 0xA0)
    && (first == 0xF0 ==> 0x90 <= second)
    && (first == 0xF4 ==> second < 0x90)
  }

  /** Number of bytes the lead byte announces, 0 for a byte that cannot lead. */
  function LeadWidth(first: Byte): nat {
    if first < 0x80 then 1
    else if 0xC2 <= first <= 0xDF then 2
    else if 0xE0 <= first <= 0xEF then 3
    else if 0xF0 <= first <= 0xF4 then 4
    else 0
  }

  /** Append the six payload bits of a continuation byte to the bits read so far. */
  function Join(high: int, continuation: int): int {
    high * 0x40 + (continuation - 0x80)
  }

  /** One step of the validator, reading from the left and stopping at the first offence. */
  function Scan(s: seq<Byte>): (r: Lead)
    requires s != []
    ensures r.Whole? ==> 1 <= r.len <= |s| && r.len <= 4
    ensures r.Malformed? ==> 1 <= r.len <= |s|
  {
    var w := LeadWidth(s[0]);
    if w == 0 then Malformed(1)
    else if w == 1 then Whole(s[0], 1)
    else if |s| < 2 then Incomplete
    else if !SecondByteFits(s[0], s[1]) then Malformed(1)
    else if w == 2 then Whole(Join(s[0] - 0xC0, s[1]), 2)
    else if |s| < 3 then Incomplete
    else if !IsContinuation(s[2]) then Malformed(2)
    else if w == 3 then Whole(Join(Join(s[0] - 0xE0, s[1]), s[2]), 3)
    else if |s| < 4 then Incomplete
    else if !IsContinuation(s[3]) then Malformed(3)
    else Whole(Join(Join(Join(s[0] - 0xF0, s[1]), s[2]), s[3]), 4)
  }

  datatype Validation = Ok(text: seq<Scalar>) | NeedMore | Bad

  /** `std::str::from_utf8`; `NeedMore` is an error without an error length. */
  function FromUtf8(s: seq<Byte>): Validation {
    if s == [] then Ok([])
    else match Scan(s)
      case Incomplete => NeedMore
      case Malformed(_) => Bad
      case Whole(c, n) =>
        match FromUtf8(s[n..])
        case Ok(text) => Ok([c] + text)
        case other => other
  }

  /** `String::from_utf8_lossy`: each maximal malformed part becomes one replacement character. */
  function Lossy(s: seq<Byte>): seq<Scalar> {
    if s == [] then []
    else match Scan(s)
      case Whole(c, n) => [c] + Lossy(s[n..])
      case Incomplete => [REPLACEMENT]
      case Malformed(n) => [REPLACEMENT] + Lossy(s[n..])
  }

  // ---------- the encoder and the validator are inverse ----------

  lemma ScanEncoded(c: Scalar, rest: seq<Byte>)
    ensures Scan(Encode(c) + rest) == Whole(c, |Encode(c)|)
  {
    var s := Encode(c) + rest;
    assert forall i :: 0 <= i < |Encode(c)| ==> s[i] == Encode(c)[i];
    NestedQuotients(c);
  }

  /** Everything accepted is the one encoding of its character: no overlong form, no surrogate. */
  lemma ScanOnlyEncodings(s: seq<Byte>)
    requires s != [] && Scan(s).Whole?
    ensures s[..Scan(s).len] == Encode(Scan(s).c)
  {
    var c, n := Scan(s).c, Scan(s).len;
    if n == 2 {
      JoinSplit(s[0] - 0xC0, s[1]);
    } else if n == 3 {
      JoinSplit(s[0] - 0xE0, s[1]);
      JoinSplit(Join(s[0] - 0xE0, s[1]), s[2]);
    } else if n == 4 {
      JoinSplit(s[0] - 0xF0, s[1]);
      JoinSplit(Join(s[0] - 0xF0, s[1]), s[2]);
      JoinSplit(Join(Join(s[0] - 0xF0, s[1]), s[2]), s[3]);
    }
    NestedQuotients(c);
    assert s[..n] == Encode(c);
  }

  lemma JoinSplit(high: int, continuation: Byte)
    requires 0 <= high && IsContinuation(continuation)
    ensures Join(high, continuation) / 0x40 == high
    ensures Join(high, continuation) % 0x40 == continuation - 0x80
  {
  }

  lemma NestedQuotients(c: Scalar)
    ensures c / 0x1000 == c / 0x40 / 0x40 && c / 0x4_0000 == c / 0x40 / 0x40 / 0x40
  {
  }

  /** A byte string is incomplete exactly when it is a proper prefix of some character's encoding. */
  lemma IncompleteIffProperPrefix(s: seq<Byte>)
    requires s != []
    ensures Scan(s) == Incomplete <==> exists c: Scalar :: s < Encode(c)
  {
    hide Encode, Scan, Completion;
    if Scan(s) == Incomplete {
      CompletionWorks(s);
      assert s < Encode(Scan(Completion(s)).c);
    }
    forall c: Scalar | s < Encode(c) ensures Scan(s) == Incomplete {
      PrefixIsIncomplete(s, c);
    }
  }

  lemma PrefixIsIncomplete(s: seq<Byte>, c: Scalar)
    requires s != [] && s < Encode(c)
    ensures Scan(s) == Incomplete
  {
    assert forall i :: 0 <= i < |s| ==> s[i] == Encode(c)[i];
  }

  lemma CompletionWorks(s: seq<Byte>)
    requires s != [] && Scan(s) == Incomplete
    ensures var t := Completion(s);
            t != [] && Scan(t).Whole? && s < Encode(Scan(t).c)
  {
    hide Encode;
    var t := Completion(s);
    assert Scan(t).Whole? && Scan(t).len == |t| && s == t[..|s|] && |s| < |t|;
    ScanOnlyEncodings(t);
    assert t[..|t|] == t;
  }

  /** The smallest way to finish an incomplete character. */
  function Completion(s: seq<Byte>): seq<Byte>
    requires s != []
  {
    var tail: seq<Byte> := [0x80, 0x80];
    var w := LeadWidth(s[0]);
    var second: Byte := if s[0] == 0xE0 then 0xA0 else if s[0] == 0xF0 then 0x90 else 0x80;
    var full := if |s| == 1 then s + [second] + tail else s + tail;
    if w <= |full| then full[..w] else full
  }

  lemma {:induction false} FromUtf8Encoded(cs: seq<Scalar>)
    ensures FromUtf8(EncodeAll(cs)) == Ok(cs)
    ensures Lossy(EncodeAll(cs)) == cs
  {
    if cs != [] {
      var rest := EncodeAll(cs[1..]);
      ScanEncoded(cs[0], rest);
      assert (Encode(cs[0]) + rest)[|Encode(cs[0])|..] == rest;
      FromUtf8Encoded(cs[1..]);
    }
  }

  /** Validation reads one character and goes on behind it. */
  lemma FromUtf8Cons(s: seq<Byte>)
    requires s != []
    ensures FromUtf8(s).Ok? <==> Scan(s).Whole? && FromUtf8(s[Scan(s).len..]).Ok?
    ensures FromUtf8(s).Ok? ==> FromUtf8(s).text == [Scan(s).c] + FromUtf8(s[Scan(s).len..]).text
  {
    hide Scan;
  }

  lemma {:induction false} FromUtf8OnlyEncodings(s: seq<Byte>)
    requires FromUtf8(s).Ok?
    ensures s == EncodeAll(FromUtf8(s).text)
  {
    hide Encode, Scan;
    if s == [] {
      assert FromUtf8(s) == Ok([]) && EncodeAll([]) == [];
    } else {
      var n := Scan(s).len;
      ScanOnlyEncodings(s);
      FromUtf8Cons(s);
      FromUtf8OnlyEncodings(s[n..]);
      EncodedFrom(s, n, Scan(s).c, FromUtf8(s[n..]).text, FromUtf8(s).text);
    }
  }

  lemma EncodedFrom(s: seq<Byte>, n: nat, c: Scalar, rest: seq<Scalar>, text: seq<Scalar>)
    requires n <= |s| && s[..n] == Encode(c) && s[n..] == EncodeAll(rest) && text == [c] + rest
    ensures s == EncodeAll(text)
  {
    EncodeAllCons(c, rest);
    assert s == s[..n] + s[n..];
  }

  lemma EncodeAllCons(c: Scalar, cs: seq<Scalar>)
    ensures EncodeAll([c] + cs) == Encode(c) + EncodeAll(cs)
  {
    assert ([c] + cs)[1..] == cs;
  }

  lemma {:induction false} EncodeAllAppend(a: seq<Scalar>, b: seq<Scalar>)
    ensures EncodeAll(a + b) == EncodeAll(a) + EncodeAll(b)
  {
    if a == [] {
      assert a + b == b;
    } else {
      assert (a + b)[1..] == a[1..] + b;
      EncodeAllAppend(a[1..], b);
    }
  }

  /** Bytes before an ASCII byte are read as if nothing followed, except that they cannot stay incomplete. */
  lemma ScanBefore(a: seq<Byte>, rest: seq<Byte>)
    requires a != [] && rest != [] && rest[0] < 0x80
    ensures Scan(a) == Incomplete ==> Scan(a + rest).Malformed?
    ensures Scan(a) != Incomplete ==> Scan(a + rest) == Scan(a)
  {
    var s := a + rest;
    assert forall i | 0 <= i < |a| :: s[i] == a[i];
    assert s[|a|] == rest[0];
  }

  /** An ASCII byte splits a byte string into parts that are valid or not by themselves. */
  lemma {:induction false} FromUtf8Around(a: seq<Byte>, b: seq<Byte>, byte: Byte)
    requires byte < 0x80
    ensures FromUtf8(a + [byte] + b).Ok? <==> FromUtf8(a).Ok? && FromUtf8(b).Ok?
    ensures FromUtf8(a + [byte] + b).Ok? ==>
      FromUtf8(a + [byte] + b).text == FromUtf8(a).text + [byte] + FromUtf8(b).text
    decreases |a|
  {
    hide Scan;
    var s := a + [byte] + b;
    FromUtf8Cons(s);
    if a == [] {
      ScanAscii(byte, b);
      assert s == [byte] + b && s[1..] == b;
    } else {
      assert s == a + ([byte] + b);
      ScanBefore(a, [byte] + b);
      FromUtf8Cons(a);
      if Scan(a).Whole? {
        var n := Scan(a).len;
        var tail := a[n..];
        assert s[n..] == tail + [byte] + b;
        FromUtf8Around(tail, b, byte);
        if FromUtf8(s).Ok? {
          Regroup([Scan(a).c], FromUtf8(tail).text, [byte], FromUtf8(b).text);
        }
      }
    }
  }

  lemma ScanAscii(byte: Byte, rest: seq<Byte>)
    requires byte < 0x80
    ensures Scan([byte] + rest) == Whole(byte, 1)
  {
  }

  lemma Regroup<T>(a: seq<T>, b: seq<T>, c: seq<T>, d: seq<T>)
    ensures a + (b + c + d) == a + b + c + d
  {
  }

  lemma {:induction false} AsciiEncoded(cs: seq<Scalar>, c: Scalar)
    requires c in cs && c < 0x80
    ensures c in EncodeAll(cs)
  {
    if cs[0] == c {
      assert EncodeAll(cs)[0] == c;
    } else {
      AsciiEncoded(cs[1..], c);
    }
  }
}
