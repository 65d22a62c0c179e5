/** Percent-decoding as performed by ECMAScript's `decodeURIComponent` (the Decode
    operation of ECMA-262 with an empty reserved set): `%XX` escapes are read as
    bytes, runs of bytes are read as UTF-8, and any malformed escape or ill-formed
    UTF-8 sequence is an error, modelled as `None`. `encodeURIComponent` is given
    as its inverse. */
module Uri {
  import opened Optional

  // ---------------------------------------------------------------- hex digits

  predicate IsHexDigit(c: char)
  {
    ('0' <= c <= '9') || ('A' <= c <= 'F') || ('a' <= c <= 'f')
  }

  function HexValue(c: char): (r: nat)
    requires IsHexDigit(c)
    ensures r < 16
  {
    if '0' <= c <= '9' then c as int - '0' as int
    else if 'A' <= c <= 'F' then c as int - 'A' as int + 10
    else c as int - 'a' as int + 10
  }

  /** The upper-case hex digit that `encodeURIComponent` writes. */
  function HexDigit(n: nat): (r: char)
    requires n < 16
    ensures IsHexDigit(r) && HexValue(r) == n
  {
    if n < 10 then ('0' as int + n) as char else ('A' as int + n - 10) as char
  }

  // ---------------------------------------------------------------- UTF-8

  /** The length of the UTF-8 sequence that a lead byte announces (its count of
      leading one bits, or 1 for an ASCII byte); 0 when the byte cannot lead one:
      a continuation byte `10xxxxxx` or a byte with more than four leading ones. */
  function SequenceLength(b: nat): (n: nat)
    requires b < 256
    ensures n <= 4
  {
    if b < 0x80 then 1
    else if b < 0xC0 then 0
    else if b < 0xE0 then 2
    else if b < 0xF0 then 3
    else if b < 0xF8 then 4
    else 0
  }

  predicate IsContinuation(b: nat)
  {
    0x80 <= b < 0xC0
  }

  /** The code point that a lead byte and its continuation bytes spell out. */
  function CodePoint(lead: nat, cont: seq<nat>): nat
    requires 1 <= |cont| <= 3
  {
    if |cont| == 1 then (lead % 32) * 64 + cont[0] % 64
    else if |cont| == 2 then (lead % 16) * 4096 + (cont[0] % 64) * 64 + cont[1] % 64
    else (lead % 8) * 262144 + (cont[0] % 64) * 4096 + (cont[1] % 64) * 64 + cont[2] % 64
  }

  /** A code point decoded from `n` bytes is well formed: not overlong, not a
      surrogate, not beyond U+10FFFF. */
  predicate WellFormed(v: nat, n: nat)
  {
    || (n == 2 && 0x80 <= v < 0x800)
    || (n == 3 && 0x800 <= v < 0x10000 && !(0xD800 <= v < 0xE000))
    || (n == 4 && 0x10000 <= v < 0x110000)
  }

  /** The UTF-8 bytes of one character. */
  function Utf8(c: char): (r: seq<nat>)
    ensures 1 <= |r| <= 4
    ensures forall i :: 0 <= i < |r| ==> r[i] < 256
    ensures SequenceLength(r[0]) == |r|
    ensures forall i :: 1 <= i < |r| ==> IsContinuation(r[i])
  {
    var v := c as int;
    if v < 0x80 then [v]
    else if v < 0x800 then [0xC0 + v / 64, 0x80 + v % 64]
    else if v < 0x10000 then [0xE0 + v / 4096, 0x80 + (v / 64) % 64, 0x80 + v % 64]
    else [0xF0 + v / 262144, 0x80 + (v / 4096) % 64, 0x80 + (v / 64) % 64, 0x80 + v % 64]
  }

  lemma TwoByteValue(v: int)
    requires 0x80 <= v < 0x800
    ensures ((0xC0 + v / 64) % 32) * 64 + (0x80 + v % 64) % 64 == v
  {
    var q, r := v / 64, v % 64;
    assert 2 <= q < 32;
    assert (0xC0 + q) % 32 == q;
    assert (0x80 + r) % 64 == r;
  }

  lemma ThreeByteValue(v: int)
    requires 0x800 <= v < 0x10000
    ensures ((0xE0 + v / 4096) % 16) * 4096 + ((0x80 + (v / 64) % 64) % 64) * 64 + (0x80 + v % 64) % 64 == v
  {
    var q, r := v / 64, v % 64;
    var a, m := q / 64, q % 64;
    assert v == 4096 * a + 64 * m + r;
    assert v / 4096 == a;
    assert (0xE0 + a) % 16 == a;
    assert (0x80 + m) % 64 == m;
    assert (0x80 + r) % 64 == r;
  }

  lemma FourByteValue(v: int)
    requires 0x10000 <= v < 0x110000
    ensures ((0xF0 + v / 262144) % 8) * 262144 + ((0x80 + (v / 4096) % 64) % 64) * 4096
            + ((0x80 + (v / 64) % 64) % 64) * 64 + (0x80 + v % 64) % 64 == v
  {
    var q, r := v / 64, v % 64;
    var q2, m := q / 64, q % 64;
    var a, l := q2 / 64, q2 % 64;
    assert v == 262144 * a + 4096 * l + 64 * m + r;
    assert v / 4096 == 64 * a + l;
    assert v / 262144 == a;
    assert (0xF0 + a) % 8 == a;
    assert (0x80 + l) % 64 == l;
    assert (0x80 + m) % 64 == m;
    assert (0x80 + r) % 64 == r;
  }

  /** Reading back the bytes of `Utf8(c)` yields `c`, and they are well formed. */
  lemma Utf8Decodes(c: char)
    ensures |Utf8(c)| == 1 ==> Utf8(c)[0] == c as int
    ensures |Utf8(c)| > 1 ==>
      var bytes := Utf8(c);
      && CodePoint(bytes[0], bytes[1..]) == c as int
      && WellFormed(c as int, |bytes|)
  {
    var v := c as int;
    if v < 0x80 {
    } else if v < 0x800 {
      TwoByteValue(v);
    } else if v < 0x10000 {
      ThreeByteValue(v);
    } else {
      FourByteValue(v);
    }
  }

  // ---------------------------------------------------------------- decoding

  /** The byte escaped as `%XX` at index `i` of `s`, if there is one. */
  function EscapedByte(s: string, i: nat): (r: Option<nat>)
    ensures r.Some? ==> r.value < 256
  {
    if i + 3 <= |s| && s[i] == '%' && IsHexDigit(s[i + 1]) && IsHexDigit(s[i + 2])
    then Some(HexValue(s[i + 1]) * 16 + HexValue(s[i + 2]))
    else None
  }

  /** The `count` continuation bytes escaped from index `i` on. */
  function Continuations(s: string, i: nat, count: nat): (r: Option<seq<nat>>)
    ensures r.Some? ==> |r.value| == count
    decreases count
  {
    if count == 0 then Some([])
    else
      match EscapedByte(s, i)
      case None => None
      case Some(b) =>
        if !IsContinuation(b) then None
        else
          match Continuations(s, i + 3, count - 1)
          case None => None
          case Some(rest) => Some([b] + rest)
  }

  function Prepend(c: char, r: Option<string>): Option<string>
  {
    match r
    case None => None
    case Some(t) => Some([c] + t)
  }

  /** `decodeURIComponent(s)`, `None` where it throws a URIError. */
  function Decode(s: string): (r: Option<string>)
    decreases |s|
  {
    if s == [] then Some([])
    else if s[0] != '%' then Prepend(s[0], Decode(s[1..]))
    else
      match EscapedByte(s, 0)
      case None => None
      case Some(lead) =>
        var n := SequenceLength(lead);
        if n == 0 then None
        else if n == 1 then Prepend(lead as char, Decode(s[3..]))
        else
          match Continuations(s, 3, n - 1)
          case None => None
          case Some(cont) =>
            var v := CodePoint(lead, cont);
            if !WellFormed(v, n) then None
            else Prepend(v as char, Decode(s[3 * n..]))
  }

  /** Text without a `%` decodes to itself. */
  lemma {:induction false} DecodePlain(s: string)
    requires '%' !in s
    ensures Decode(s) == Some(s)
    decreases |s|
  {
    if s != [] {
      DecodePlain(s[1..]);
      assert s == [s[0]] + s[1..];
    }
  }

  /** A `%` that is not followed by two hex digits makes decoding fail. */
  lemma BadEscapeFails(s: string)
    requires s != [] && s[0] == '%'
    requires |s| < 3 || !IsHexDigit(s[1]) || !IsHexDigit(s[2])
    ensures Decode(s) == None
  {
  }

  // ---------------------------------------------------------------- encoding

  /** The characters `encodeURIComponent` leaves as they are. */
  predicate IsUnreserved(c: char)
  {
    || ('A' <= c <= 'Z') || ('a' <= c <= 'z') || ('0' <= c <= '9')
    || c == '-' || c == '_' || c == '.' || c == '!' || c == '~' || c == '*' || c == '\'' || c == '(' || c == ')'
  }

  /** `%XX` written for a byte reads back as that byte. */
  lemma EscapeHead(b: nat, rest: string)
    requires b < 256
    ensures EscapedByte(['%', HexDigit(b / 16), HexDigit(b % 16)] + rest, 0) == Some(b)
  {
    var s := ['%', HexDigit(b / 16), HexDigit(b % 16)] + rest;
    assert s[1] == HexDigit(b / 16) && s[2] == HexDigit(b % 16);
    assert (b / 16) * 16 + b % 16 == b;
  }

  function Escape(bytes: seq<nat>): (r: string)
    requires forall i :: 0 <= i < |bytes| ==> bytes[i] < 256
    ensures |r| == 3 * |bytes|
    ensures forall i :: 0 <= i < |bytes| ==> EscapedByte(r, 3 * i) == Some(bytes[i])
  {
    if bytes == [] then []
    else
      var head := ['%', HexDigit(bytes[0] / 16), HexDigit(bytes[0] % 16)];
      var rest := Escape(bytes[1..]);
      var r := head + rest;
      forall i | 0 <= i < |bytes|
        ensures EscapedByte(r, 3 * i) == Some(bytes[i])
      {
        if i == 0 {
          EscapeHead(bytes[0], rest);
        } else {
          var j := 3 * (i - 1);
          assert EscapedByte(rest, j) == Some(bytes[1..][i - 1]);
          assert r[3 * i] == rest[j] && r[3 * i + 1] == rest[j + 1] && r[3 * i + 2] == rest[j + 2];
        }
      }
      r
  }

  function EncodeChar(c: char): string
  {
    if IsUnreserved(c) then [c] else Escape(Utf8(c))
  }

  /** `encodeURIComponent(s)`. */
  function Encode(s: string): string
  {
    if s == [] then [] else EncodeChar(s[0]) + Encode(s[1..])
  }

  /** Escapes are made of `%` and hexadecimal digits only. */
  lemma {:induction false} EscapeAlphabet(bytes: seq<nat>)
    requires forall i :: 0 <= i < |bytes| ==> bytes[i] < 256
    ensures forall c :: c in Escape(bytes) ==> IsUnreserved(c) || c == '%'
  {
    if bytes != [] {
      EscapeAlphabet(bytes[1..]);
    }
  }

  /** `encodeURIComponent` emits only unreserved characters and `%`; in particular
      its output holds no `/` and no `?`. */
  lemma {:induction false} EncodeAlphabet(s: string)
    ensures forall c :: c in Encode(s) ==> IsUnreserved(c) || c == '%'
  {
    if s != [] {
      EncodeAlphabet(s[1..]);
      if !IsUnreserved(s[0]) {
        EscapeAlphabet(Utf8(s[0]));
      }
      assert Encode(s) == EncodeChar(s[0]) + Encode(s[1..]);
    }
  }

  /** The escape of a continuation run reads back as that run. */
  lemma {:induction false} ContinuationsOfEscape(s: string, bytes: seq<nat>, i: nat, count: nat)
    requires forall k :: 0 <= k < |bytes| ==> bytes[k] < 256
    requires i + count <= |bytes|
    requires forall k :: i <= k < i + count ==> IsContinuation(bytes[k])
    requires forall k :: i <= k < i + count ==> EscapedByte(s, 3 * k) == Some(bytes[k])
    ensures Continuations(s, 3 * i, count) == Some(bytes[i..i + count])
    decreases count
  {
    if count > 0 {
      ContinuationsOfEscape(s, bytes, i + 1, count - 1);
      assert bytes[i..i + count] == [bytes[i]] + bytes[i + 1..i + count];
    }
  }

  /** An escape inside a prefix reads the same with anything appended. */
  lemma EscapedByteInPrefix(e: string, rest: string, i: nat)
    requires i + 3 <= |e|
    ensures EscapedByte(e + rest, i) == EscapedByte(e, i)
  {
    assert (e + rest)[i..i + 3] == e[i..i + 3];
  }

  /** Decoding reads escaped bytes that form a well-formed UTF-8 sequence for the code
      point `v` back as `v`. */
  lemma DecodeEscapedBytes(bytes: seq<nat>, v: nat, rest: string)
    requires 1 <= |bytes| <= 4 && forall k :: 0 <= k < |bytes| ==> bytes[k] < 256
    requires SequenceLength(bytes[0]) == |bytes|
    requires forall k :: 1 <= k < |bytes| ==> IsContinuation(bytes[k])
    requires |bytes| == 1 ==> bytes[0] == v && v < 0x80
    requires |bytes| > 1 ==> CodePoint(bytes[0], bytes[1..]) == v && WellFormed(v, |bytes|)
    ensures Decode(Escape(bytes) + rest) == Prepend(v as char, Decode(rest))
  {
    var n := |bytes|;
    var s := Escape(bytes) + rest;
    forall k | 0 <= k < n
      ensures EscapedByte(s, 3 * k) == Some(bytes[k])
    {
      EscapedByteInPrefix(Escape(bytes), rest, 3 * k);
    }
    assert s[3 * n..] == rest;
    assert s[0] == '%';
    var lead := bytes[0];
    assert EscapedByte(s, 0) == Some(lead);
    if n == 1 {
      assert Decode(s) == Prepend(lead as char, Decode(s[3..]));
    } else {
      ContinuationsOfEscape(s, bytes, 1, n - 1);
      assert bytes[1..1 + (n - 1)] == bytes[1..];
      assert Continuations(s, 3, n - 1) == Some(bytes[1..]);
    }
  }

  /** Decoding reads the escaped UTF-8 bytes of one character back as that character. */
  lemma DecodeEscapedChar(c: char, rest: string)
    requires !IsUnreserved(c)
    ensures Decode(Escape(Utf8(c)) + rest) == Prepend(c, Decode(rest))
  {
    Utf8Decodes(c);
    DecodeEscapedBytes(Utf8(c), c as int, rest);
  }

  /** Decoding consumes one encoded character and continues with the rest. */
  lemma DecodeEncodedChar(c: char, rest: string)
    ensures Decode(EncodeChar(c) + rest) == Prepend(c, Decode(rest))
  {
    if IsUnreserved(c) {
      assert ([c] + rest)[1..] == rest;
    } else {
      DecodeEscapedChar(c, rest);
    }
  }

  /** `decodeURIComponent(encodeURIComponent(s)) == s` for every string. */
  lemma {:induction false} DecodeEncode(s: string)
    ensures Decode(Encode(s)) == Some(s)
    decreases |s|
  {
    if s != [] {
      DecodeEncode(s[1..]);
      DecodeEncodedChar(s[0], Encode(s[1..]));
      assert s == [s[0]] + s[1..];
    }
  }
}
