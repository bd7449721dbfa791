/** JavaScript's `encodeURIComponent`: every character outside the unreserved
    set `A-Z a-z 0-9 - _ . ! ~ * ' ( )` is replaced by the `%XX` escapes of its
    UTF-8 bytes, with upper-case hexadecimal digits. Dafny characters are
    Unicode scalar values, so the lone-surrogate error of the host cannot
    arise. */
module Uri {

  predicate Unreserved(c: char) {
    || ('A' <= c <= 'Z') || ('a' <= c <= 'z') || ('0' <= c <= '9')
    || c == '-' || c == '_' || c == '.' || c == '!' || c == '~'
    || c == '*' || c == '\'' || c == '(' || c == ')'
  }

  function HexDigit(n: nat): (c: char)
    requires n < 16
    ensures Unreserved(c)
  {
    if n < 10 then (48 + n) as char else (55 + n) as char
  }

  function HexValue(c: char): nat {
    if '0' <= c <= '9' then c as nat - 48
    else if 'A' <= c <= 'F' then c as nat - 55
    else 0
  }

  lemma HexDigitValue(n: nat)
    requires n < 16
    ensures HexValue(HexDigit(n)) == n
  {
  }

  /** The UTF-8 bytes of a scalar value. */
  function Utf8(cp: nat): (bytes: seq<nat>)
    requires cp < 0x11_0000
    ensures 1 <= |bytes| <= 4
    ensures forall i :: 0 <= i < |bytes| ==> bytes[i] < 256
    ensures (cp < 0x80) <==> |bytes| == 1
  {
    if cp < 0x80 then [cp]
    else if cp < 0x800 then [0xC0 + cp / 64, 0x80 + cp % 64]
    else if cp < 0x1_0000 then [0xE0 + cp / 4096, 0x80 + (cp / 64) % 64, 0x80 + cp % 64]
    else [0xF0 + cp / 262144, 0x80 + (cp / 4096) % 64, 0x80 + (cp / 64) % 64, 0x80 + cp % 64]
  }

  /** Reads a scalar value back from its UTF-8 bytes. */
  function Utf8Value(bytes: seq<nat>): int {
    if |bytes| == 1 then bytes[0]
    else if |bytes| == 2 then (bytes[0] as int - 0xC0) * 64 + (bytes[1] as int - 0x80)
    else if |bytes| == 3 then (bytes[0] as int - 0xE0) * 4096 + (bytes[1] as int - 0x80) * 64 + (bytes[2] as int - 0x80)
    else if |bytes| == 4 then
      (bytes[0] as int - 0xF0) * 262144 + (bytes[1] as int - 0x80) * 4096 + (bytes[2] as int - 0x80) * 64 + (bytes[3] as int - 0x80)
    else -1
  }

  lemma Base64Digits(x: nat)
    ensures x == (x / 64) * 64 + x % 64
    ensures x / 4096 == (x / 64) / 64
    ensures x / 262144 == (x / 4096) / 64
  {
  }

  /** The encoding of one scalar value determines it. */
  lemma Utf8RoundTrip(cp: nat)
    requires cp < 0x11_0000
    ensures Utf8Value(Utf8(cp)) == cp
  {
    Base64Digits(cp);
    Base64Digits(cp / 64);
    Base64Digits(cp / 4096);
  }

  function PercentBytes(bytes: seq<nat>): (r: string)
    requires forall i :: 0 <= i < |bytes| ==> bytes[i] < 256
    ensures |r| == 3 * |bytes|
    ensures forall i :: 0 <= i < |r| ==> Unreserved(r[i]) || r[i] == '%'
  {
    if |bytes| == 0 then ""
    else ['%', HexDigit(bytes[0] / 16), HexDigit(bytes[0] % 16)] + PercentBytes(bytes[1..])
  }

  /** `encodeURIComponent` of one character. */
  function EncodeChar(c: char): (r: string)
    ensures Unreserved(c) ==> r == [c]
    ensures !Unreserved(c) ==> 3 <= |r| <= 12 && r[0] == '%'
    ensures forall i :: 0 <= i < |r| ==> Unreserved(r[i]) || r[i] == '%'
  {
    if Unreserved(c) then [c] else PercentBytes(Utf8(c as nat))
  }

  /** `encodeURIComponent(s)`: the output holds only unreserved characters and
      `%`, so in particular never `&`, `=`, `|`, `]` or `/`. */
  function EncodeUriComponent(s: string): (r: string)
    ensures |r| >= |s|
    ensures forall i :: 0 <= i < |r| ==> Unreserved(r[i]) || r[i] == '%'
    ensures '&' !in r && ']' !in r && '|' !in r && '/' !in r
    decreases |s|
  {
    if |s| == 0 then ""
    else
      var h, t := EncodeChar(s[0]), EncodeUriComponent(s[1..]);
      var r := h + t;
      assert forall i :: |h| <= i < |r| ==> r[i] == t[i - |h|];
      Excluded(r, '&');
      Excluded(r, ']');
      Excluded(r, '|');
      Excluded(r, '/');
      r
  }

  /** A character that is neither unreserved nor `%` cannot occur in encoded text. */
  lemma Excluded(r: string, ch: char)
    requires forall i :: 0 <= i < |r| ==> Unreserved(r[i]) || r[i] == '%'
    requires !Unreserved(ch) && ch != '%'
    ensures ch !in r
  {
  }

  /** Encoding works character by character. */
  lemma {:induction false} EncodeAppend(a: string, b: string)
    ensures EncodeUriComponent(a + b) == EncodeUriComponent(a) + EncodeUriComponent(b)
    decreases |a|
  {
    if |a| > 0 {
      assert (a + b)[0] == a[0];
      assert (a + b)[1..] == a[1..] + b;
      EncodeAppend(a[1..], b);
    } else {
      assert a + b == b;
    }
  }

  /** Text made of unreserved characters is left as it is, and only such text. */
  lemma {:induction false} EncodeIdentity(s: string)
    ensures EncodeUriComponent(s) == s <==> forall i :: 0 <= i < |s| ==> Unreserved(s[i])
    decreases |s|
  {
    if |s| > 0 {
      EncodeIdentity(s[1..]);
      var e := EncodeUriComponent(s);
      if Unreserved(s[0]) {
        assert e == [s[0]] + EncodeUriComponent(s[1..]);
        assert s == [s[0]] + s[1..];
        if forall i :: 0 <= i < |s| ==> Unreserved(s[i]) {
          assert forall i :: 0 <= i < |s[1..]| ==> Unreserved(s[1..][i]) by {
            forall i | 0 <= i < |s[1..]| ensures Unreserved(s[1..][i]) {
              assert s[1..][i] == s[i + 1];
            }
          }
        }
        if e == s {
          assert EncodeUriComponent(s[1..]) == s[1..];
          forall i | 0 <= i < |s| ensures Unreserved(s[i]) {
            if i > 0 { assert s[i] == s[1..][i - 1]; }
          }
        }
      } else {
        assert |e| >= 3 + |s| - 1 > |s|;
      }
    }
  }
}
