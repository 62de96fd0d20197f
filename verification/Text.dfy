/**
 Text as Rust holds it: strings of Unicode scalar values, the UTF-8 bytes of a string
 (section 3 of RFC 3629), and trimming and splitting on whitespace.
 */
module Text {
  // ----- UTF-8 -----

  type Byte = b: int | 0 <= b < 256

  predicate IsContinuation(b: Byte) {
    0x80 <= b < 0xC0
  }

  function EncodeChar(c: char): (bytes: seq<Byte>)
    ensures 1 <= |bytes| <= 4 && !IsContinuation(bytes[0])
    ensures forall i :: 0 < i < |bytes| ==> IsContinuation(bytes[i])
  {
    var n := c as int;
    if n < 0x80 then [n]
    else if n < 0x800 then [0xC0 + n / 0x40, 0x80 + n % 0x40]
    else if n < 0x1_0000 then [0xE0 + n / 0x1000, 0x80 + n / 0x40 % 0x40, 0x80 + n % 0x40]
    else [0xF0 + n / 0x4_0000, 0x80 + n / 0x1000 % 0x40, 0x80 + n / 0x40 % 0x40, 0x80 + n % 0x40]
  }

  function Encode(s: string): (bytes: seq<Byte>)
    ensures |bytes| >= |s|
    ensures s != [] ==> !IsContinuation(bytes[0])
  {
    if s == [] then [] else EncodeChar(s[0]) + Encode(s[1..])
  }

  // The payload of the continuation byte at i.
  function Low(bytes: seq<Byte>, i: nat): nat {
    if i < |bytes| && IsContinuation(bytes[i]) then bytes[i] - 0x80 else 0
  }

  // The code point that the first character's bytes spell, and how many bytes it has; the lead
  // byte alone tells how many.
  function DecodeFirst(bytes: seq<Byte>): (int, nat)
    requires bytes != []
  {
    var lead := bytes[0];
    if lead < 0x80 then (lead, 1)
    else if lead < 0xE0 then ((lead - 0xC0) * 0x40 + Low(bytes, 1), 2)
    else if lead < 0xF0 then ((lead - 0xE0) * 0x1000 + Low(bytes, 1) * 0x40 + Low(bytes, 2), 3)
    else ((lead - 0xF0) * 0x4_0000 + Low(bytes, 1) * 0x1000 + Low(bytes, 2) * 0x40 + Low(bytes, 3), 4)
  }

  /** Reading the bytes back gives the character, whatever follows it; and there are as few bytes as
      can carry it, with 7, 11, 16 and 21 bits of payload in 1, 2, 3 and 4 bytes. */
  lemma {:induction false} EncodedCharDecodes(c: char, rest: seq<Byte>)
    ensures DecodeFirst(EncodeChar(c) + rest) == (c as int, |EncodeChar(c)|)
    ensures |EncodeChar(c)| <= 1 <==> (c as int) < 0x80
    ensures |EncodeChar(c)| <= 2 <==> (c as int) < 0x800
    ensures |EncodeChar(c)| <= 3 <==> (c as int) < 0x1_0000
  {
    var n := c as int;
    assert n == n / 0x40 * 0x40 + n % 0x40;
    assert n / 0x40 == n / 0x1000 * 0x40 + n / 0x40 % 0x40;
    assert n / 0x1000 == n / 0x4_0000 * 0x40 + n / 0x1000 % 0x40;
  }

  /** Different texts have different bytes. */
  lemma {:induction false} EncodeIsInjective(s: string, t: string)
    requires Encode(s) == Encode(t)
    ensures s == t
  {
    if s != [] && t != [] {
      EncodedCharDecodes(s[0], Encode(s[1..]));
      EncodedCharDecodes(t[0], Encode(t[1..]));
      assert Encode(s[1..]) == Encode(s)[|EncodeChar(s[0])|..];
      assert Encode(t[1..]) == Encode(t)[|EncodeChar(t[0])|..];
      EncodeIsInjective(s[1..], t[1..]);
    }
  }

  // str::is_char_boundary: an end of the text, or a byte that starts a character.
  predicate IsCharBoundary(bytes: seq<Byte>, i: nat) {
    i == 0 || i == |bytes| || (i < |bytes| && !IsContinuation(bytes[i]))
  }

  lemma {:induction false} EncodeSplit(s: string, k: nat)
    requires k <= |s|
    ensures Encode(s) == Encode(s[..k]) + Encode(s[k..])
  {
    if k == 0 {
      assert s[..0] == [] && s[0..] == s;
    } else {
      EncodeSplit(s[1..], k - 1);
      assert s[..k][0] == s[0] && s[..k][1..] == s[1..][..k - 1] && s[1..][k - 1..] == s[k..];
    }
  }

  lemma EncodeMonotone(s: string, j: nat, k: nat)
    requires j <= k <= |s|
    ensures |Encode(s[..j])| + (k - j) <= |Encode(s[..k])| <= |Encode(s)|
  {
    EncodeSplit(s, k);
    EncodeSplit(s[..k], j);
    assert s[..k][..j] == s[..j];
  }

  /** A byte position is a character boundary exactly when it is the length of some number of
      whole leading characters. */
  lemma {:induction false} BoundariesAreWholeCharacters(s: string, i: nat)
    requires i <= |Encode(s)|
    ensures IsCharBoundary(Encode(s), i) <==> exists k :: 0 <= k <= |s| && i == |Encode(s[..k])|
  {
    if IsCharBoundary(Encode(s), i) {
      var k := BoundaryIsWhole(s, i);
      assert i == |Encode(s[..k])|;
    }
    if k :| 0 <= k <= |s| && i == |Encode(s[..k])| {
      EncodeSplit(s, k);
      assert i < |Encode(s)| ==> Encode(s)[i] == Encode(s[k..])[0];
    }
  }

  lemma {:induction false} BoundaryIsWhole(s: string, i: nat) returns (k: nat)
    requires i <= |Encode(s)| && IsCharBoundary(Encode(s), i)
    ensures k <= |s| && i == |Encode(s[..k])|
  {
    if i == 0 {
      k := 0;
    } else {
      var head := EncodeChar(s[0]);
      assert forall j :: 0 <= j < |head| ==> Encode(s)[j] == head[j];
      assert i >= |head|;
      assert i < |Encode(s)| ==> Encode(s)[i] == Encode(s[1..])[i - |head|];
      var rest := BoundaryIsWhole(s[1..], i - |head|);
      k := rest + 1;
      assert s[..k][0] == s[0] && s[..k][1..] == s[1..][..rest];
    }
  }

  // &s[0..len], which the source requires to end on a character boundary.
  function Slice(s: string, len: nat): (r: string)
    requires len <= |Encode(s)| && IsCharBoundary(Encode(s), len)
    ensures r <= s && Encode(r) == Encode(s)[..len]
  {
    if len == 0 then []
    else
      BoundariesAreWholeCharacters(s, len);
      var k :| 0 <= k <= |s| && len == |Encode(s[..k])|;
      SliceUnique(s, len, k);
      TakeBytes(s, len)
  }

  // Whole leading characters while they fit.
  function TakeBytes(s: string, len: nat): string {
    if s == [] || |EncodeChar(s[0])| > len then []
    else [s[0]] + TakeBytes(s[1..], len - |EncodeChar(s[0])|)
  }

  lemma {:induction false} SliceUnique(s: string, len: nat, k: nat)
    requires k <= |s| && len == |Encode(s[..k])|
    ensures len <= |Encode(s)| && TakeBytes(s, len) == s[..k]
    ensures Encode(s[..k]) == Encode(s)[..len]
  {
    EncodeSplit(s, k);
    if k > 0 {
      assert s[..k][0] == s[0] && s[..k][1..] == s[1..][..k - 1];
      SliceUnique(s[1..], len - |EncodeChar(s[0])|, k - 1);
    }
  }

  // ----- whitespace -----

  // Unicode White_Space.
  predicate IsWhitespace(c: char) {
    var n := c as int;
    || 0x9 <= n <= 0xD || n == 0x20 || n == 0x85 || n == 0xA0 || n == 0x1680
    || 0x2000 <= n <= 0x200A || n == 0x2028 || n == 0x2029 || n == 0x202F || n == 0x205F || n == 0x3000
  }

  predicate NoWhitespace(s: string) {
    forall c :: c in s ==> !IsWhitespace(c)
  }

  function TrimStart(s: string): string {
    if s != [] && IsWhitespace(s[0]) then TrimStart(s[1..]) else s
  }

  function TrimEnd(s: string): string {
    if s != [] && IsWhitespace(s[|s| - 1]) then TrimEnd(s[..|s| - 1]) else s
  }

  function Trim(s: string): string {
    TrimEnd(TrimStart(s))
  }

  // No whitespace at either end.
  predicate Trimmed(s: string) {
    s != [] ==> !IsWhitespace(s[0]) && !IsWhitespace(s[|s| - 1])
  }

  lemma {:induction false} TrimStartIsSuffix(s: string) returns (k: nat)
    ensures k <= |s| && TrimStart(s) == s[k..] && forall i :: 0 <= i < k ==> IsWhitespace(s[i])
    ensures TrimStart(s) != [] ==> !IsWhitespace(TrimStart(s)[0])
  {
    k := 0;
    if s != [] && IsWhitespace(s[0]) {
      var rest := TrimStartIsSuffix(s[1..]);
      k := rest + 1;
      assert s[1..][rest..] == s[k..];
      assert forall i :: 1 <= i < k ==> s[i] == s[1..][i - 1];
    }
  }

  lemma {:induction false} TrimEndIsPrefix(s: string)
    ensures TrimEnd(s) <= s && forall i :: |TrimEnd(s)| <= i < |s| ==> IsWhitespace(s[i])
    ensures TrimEnd(s) != [] ==> !IsWhitespace(TrimEnd(s)[|TrimEnd(s)| - 1])
  {
    if s != [] && IsWhitespace(s[|s| - 1]) { TrimEndIsPrefix(s[..|s| - 1]); }
  }

  /** Trimming takes whitespace, and only whitespace, off both ends. */
  lemma TrimIsTrimmed(s: string) returns (i: nat, j: nat)
    ensures Trimmed(Trim(s))
    ensures i <= j <= |s| && Trim(s) == s[i..j]
    ensures forall k :: 0 <= k < i || j <= k < |s| ==> IsWhitespace(s[k])
  {
    i := TrimStartIsSuffix(s);
    TrimEndIsPrefix(s[i..]);
    j := i + |Trim(s)|;
    assert Trim(s) == s[i..][..|Trim(s)|] == s[i..j];
    forall k | j <= k < |s| ensures IsWhitespace(s[k]) {
      assert s[k] == s[i..][k - i];
    }
  }

  lemma {:induction false} TrimEndKeepsPrefix(s: string, q: string)
    requires q <= s && q != [] && !IsWhitespace(q[|q| - 1])
    ensures q <= TrimEnd(s)
  {
    if IsWhitespace(s[|s| - 1]) { TrimEndKeepsPrefix(s[..|s| - 1], q); }
  }

  /** Trimming cannot cut into a prefix that has no whitespace at its ends. */
  lemma TrimKeepsTrimmedPrefix(s: string, q: string)
    requires q <= s && Trimmed(q)
    ensures q <= Trim(s)
  {
    if q != [] {
      assert TrimStart(s) == s;
      TrimEndKeepsPrefix(s, q);
    }
  }
}
