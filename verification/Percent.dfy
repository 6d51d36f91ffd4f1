/** Percent-encoding as `url_encode` does it, against a decoder for sections 2.1 and 2.3 of RFC 3986. */
module Percent {
  import opened Basics

  /** A C string: bytes as characters below 256, none of them NUL. */
  predicate IsCString(s: string) {
    forall c <- s :: 0 < c as int < 256
  }

  /** Section 2.3 of RFC 3986. */
  predicate Unreserved(c: char) {
    IsAlnum(c) || c == '-' || c == '.' || c == '_' || c == '~'
  }

  /** The printf conversion `%x`: no padding. */
  function Hex(n: nat): (s: string)
    ensures s != ""
  {
    if n < 16 then [HexDigit(n)] else Hex(n / 16) + [HexDigit(n % 16)]
  }

  function EncodeChar(c: char): string {
    if Unreserved(c) then [c] else "%" + Hex(c as int)
  }

  function Encode(s: string): string {
    if s == "" then "" else EncodeChar(s[0]) + Encode(s[1..])
  }

  lemma {:induction false} EncodeConcat(a: string, b: string)
    ensures Encode(a + b) == Encode(a) + Encode(b)
  {
    if a == "" {
      assert a + b == b;
    } else {
      assert (a + b)[1..] == a[1..] + b;
      EncodeConcat(a[1..], b);
    }
  }

  const DIGITS: string := "0123456789abcdef"

  /** What each byte is encoded as, by its number: digits, letters and `-`, `.`, `_`, `~` as they are.
      With EncodeConcat that settles every encoding. */
  lemma EncodedByte(n: nat)
    requires 0 < n < 256
    ensures var c := n as char;
            Encode([c]) ==
            if 48 <= n <= 57 || 65 <= n <= 90 || 97 <= n <= 122 || n == 45 || n == 46 || n == 95 || n == 126 then [c]
            else if n < 16 then ['%', DIGITS[n]]
            else ['%', DIGITS[n / 16], DIGITS[n % 16]]
  {
    var c := n as char;
    assert [c][1..] == "";
    assert Encode([c]) == EncodeChar(c) + "" == EncodeChar(c);
    if n < 16 {
      DigitListed(n);
    } else {
      TwoDigits(n);
      DigitListed(n / 16);
      DigitListed(n % 16);
    }
  }

  lemma DigitListed(n: nat)
    requires n < 16
    ensures HexDigit(n) == DIGITS[n]
  {
  }

  lemma EncodeStep(s: string, i: nat)
    requires i < |s|
    ensures Encode(s[..i + 1]) == Encode(s[..i]) + EncodeChar(s[i])
  {
    EncodeConcat(s[..i], [s[i]]);
    assert s[..i + 1] == s[..i] + [s[i]] && [s[i]][1..] == "";
    assert Encode([s[i]]) == EncodeChar(s[i]) + "" == EncodeChar(s[i]);
  }

  method UrlEncode(str: string) returns (buf: string)
    requires IsCString(str)
    ensures buf == Encode(str)
  {
    buf := "";
    for i := 0 to |str|
      invariant buf == Encode(str[..i])
    {
      var c := str[i];
      EncodeStep(str, i);
      if Unreserved(c) {
        buf := buf + [c];
      } else {
        buf := buf + "%" + Hex(c as int);
      }
    }
    assert str[..|str|] == str;
  }

  // ------------------------------------------------------------------------
  // Decoding
  // ------------------------------------------------------------------------

  /** Section 2.1 of RFC 3986: a percent sign and two hexadecimal digits stand for one byte. */
  function Decode(t: string): Option<string> {
    if t == "" then Some("")
    else if t[0] == '%' then
      if |t| >= 3 && IsHex(t[1]) && IsHex(t[2]) then
        match Decode(t[3..])
        case Some(s) => Some([(16 * HexValue(t[1]) + HexValue(t[2])) as char] + s)
        case None => None
      else None
    else
      match Decode(t[1..])
      case Some(s) => Some([t[0]] + s)
      case None => None
  }

  lemma EncodedChar(c: char, t: string)
    requires 0 < c as int < 256
    ensures var u := EncodeChar(c) + t;
            if Unreserved(c) then u[0] == c && c != '%' && u[1..] == t && c as int >= 0x10
            else if c as int >= 0x10 then
              && |u| >= 3 && u[0] == '%' && IsHex(u[1]) && IsHex(u[2]) && u[3..] == t
              && 16 * HexValue(u[1]) + HexValue(u[2]) == c as int
            else |u| >= 2 && u[0] == '%' && IsHex(u[1]) && HexValue(u[1]) == c as int && u[2..] == t
  {
    var n := c as int;
    if Unreserved(c) {
    } else if n >= 0x10 {
      TwoDigits(n);
      var u := ['%', HexDigit(n / 16), HexDigit(n % 16)];
      assert EncodeChar(c) == u;
      assert (u + t)[3..] == t;
    } else {
      var u := ['%', HexDigit(n)];
      assert EncodeChar(c) == u;
      assert (u + t)[2..] == t;
    }
  }

  lemma TwoDigits(n: nat)
    requires 16 <= n < 256
    ensures Hex(n) == [HexDigit(n / 16), HexDigit(n % 16)]
  {
    assert Hex(n / 16) == [HexDigit(n / 16)];
  }

  lemma CStringTail(s: string)
    requires IsCString(s) && s != ""
    ensures 0 < s[0] as int < 256 && IsCString(s[1..]) && s == [s[0]] + s[1..]
    ensures forall c <- s[1..] :: c in s
    ensures (forall c <- s :: c as int >= 0x10) <==> s[0] as int >= 0x10 && forall c <- s[1..] :: c as int >= 0x10
  {
    assert s == [s[0]] + s[1..];
    assert s[0] in s && forall c <- s[1..] :: c in s;
    assert forall c <- s :: c == s[0] || c in s[1..];
  }

  /** Decoding undoes the encoding exactly on the strings without bytes below 0x10: those are printed
      with a single digit. */
  lemma {:induction false} DecodeUndoesExactly(s: string)
    requires IsCString(s)
    ensures Decode(Encode(s)) == Some(s) <==> forall c <- s :: c as int >= 0x10
  {
    if s != "" {
      var c, rest := s[0], s[1..];
      CStringTail(s);
      EncodedChar(c, Encode(rest));
      DecodeUndoesExactly(rest);
      var u := Encode(s);
      if c as int >= 0x10 {
        assert Decode(u).Some? <==> Decode(Encode(rest)).Some?;
        if Decode(u).Some? {
          assert Decode(u).value[0] == c && Decode(u).value[1..] == Decode(Encode(rest)).value;
        }
      } else if Decode(u).Some? {
        assert Decode(u).value[0] as int == 16 * HexValue(u[1]) + HexValue(u[2]) >= 0x10;
      }
    }
  }

  lemma EncodeInjective(a: string, b: string)
    requires IsCString(a) && IsCString(b) && (forall c <- a :: c as int >= 0x10) && (forall c <- b :: c as int >= 0x10)
    requires Encode(a) == Encode(b)
    ensures a == b
  {
    DecodeUndoesExactly(a);
    DecodeUndoesExactly(b);
  }

  /** For example, byte 0x0A followed by `b`, and byte 0xAB. */
  lemma EncodingsCollide()
    ensures Encode([10 as char, 'b']) == Encode([0xAB as char]) == "%ab"
  {
    var x, y := [10 as char, 'b'], [0xAB as char];
    assert x[1..] == ['b'] && ['b'][1..] == "" && y[1..] == "";
    assert EncodeChar(10 as char) == ['%', HexDigit(10)];
    TwoDigits(0xAB);
    assert EncodeChar(0xAB as char) == ['%', HexDigit(10), HexDigit(11)];
  }

  // ------------------------------------------------------------------------
  // Which encodings are shared
  // ------------------------------------------------------------------------

  predicate IsLowerHex(c: char) {
    '0' <= c <= '9' || 'a' <= c <= 'f'
  }

  /** At `i` the string has an escaped byte from 0x10 up, or a byte below that, followed by a digit
      that completes it to the escape of another byte. */
  predicate SharedAt(s: string, i: nat)
    requires i < |s|
  {
    if s[i] as int >= 0x10 then !Unreserved(s[i])
    else i + 1 < |s| && IsLowerHex(s[i + 1]) && !Unreserved(Joined(s[i], s[i + 1]))
  }

  /** The byte whose two digits are that of a byte below 0x10 and `d`. */
  function Joined(c: char, d: char): char
    requires c as int < 0x10 && IsLowerHex(d)
  {
    (16 * c as int + HexValue(d)) as char
  }

  ghost predicate Twin(s: string, t: string) {
    IsCString(t) && t != s && Encode(t) == Encode(s)
  }

  /** Another string has the same encoding exactly when there is such a place. So every string with an escaped
      byte from 0x10 up, a space for one, shares its encoding. */
  lemma EncodingSharedExactly(s: string)
    requires IsCString(s)
    ensures (exists t :: Twin(s, t)) <==> (exists i :: 0 <= i < |s| && SharedAt(s, i))
  {
    if i :| 0 <= i < |s| && SharedAt(s, i) {
      var t := TwinAt(s, i);
      assert Twin(s, t);
    } else {
      forall t ensures !Twin(s, t) {
        if IsCString(t) && Encode(t) == Encode(s) {
          OwnEncoding(s, t);
        }
      }
    }
  }

  lemma TwinAt(s: string, i: nat) returns (t: string)
    requires IsCString(s) && i < |s| && SharedAt(s, i)
    ensures Twin(s, t)
  {
    var c := s[i];
    assert c in s;
    if c as int >= 0x10 {
      var n := c as int;
      Splits(c, n);
      assert s[i..i + 1] == [c];
      t := Replaced(s, i, 1, [(n / 16) as char, HexDigit(n % 16)]);
      assert |t| == |s| + 1;
    } else {
      var whole := Joined(c, s[i + 1]);
      Splits(whole, whole as int);
      assert s[i..i + 2] == [c, s[i + 1]];
      t := Replaced(s, i, 2, [whole]);
      assert |t| == |s| - 1;
    }
  }

  /** The `n` characters from `i` on are replaced by some that are encoded in the same way. */
  lemma Replaced(s: string, i: nat, n: nat, x: string) returns (t: string)
    requires IsCString(s) && IsCString(x) && i + n <= |s| && Encode(x) == Encode(s[i..i + n])
    ensures t == s[..i] + x + s[i + n..]
    ensures IsCString(t) && Encode(t) == Encode(s)
  {
    t := s[..i] + x + s[i + n..];
    assert s == s[..i] + s[i..i + n] + s[i + n..];
    SameWithin(s[..i], x, s[i..i + n], s[i + n..]);
    forall c <- t ensures 0 < c as int < 256 {
      assert c in s || c in x;
    }
  }

  /** An escaped byte from 0x10 up is encoded like the byte of its first digit and its second digit. */
  lemma Splits(c: char, n: nat)
    requires n == c as int && 0x10 <= n < 256 && !Unreserved(c)
    ensures Encode([(n / 16) as char, HexDigit(n % 16)]) == Encode([c])
    ensures 0 < n / 16 < 16
  {
    var a, d := (n / 16) as char, HexDigit(n % 16);
    TwoDigits(n);
    assert [a, d][1..] == [d] && [d][1..] == "" && [c][1..] == "";
    assert EncodeChar(a) == ['%', HexDigit(n / 16)] && EncodeChar(d) == [d];
    assert Encode([d]) == [d] + "" == [d];
    assert Encode([c]) == EncodeChar(c) + "" == ['%', HexDigit(n / 16), d];
  }

  lemma SameWithin(before: string, x: string, y: string, after: string)
    requires Encode(x) == Encode(y)
    ensures Encode(before + x + after) == Encode(before + y + after)
  {
    EncodeConcat(before, x);
    EncodeConcat(before, y);
    EncodeConcat(before + x, after);
    EncodeConcat(before + y, after);
  }

  /** Without such a place the encoding can be read in one way only. */
  lemma {:induction false} OwnEncoding(s: string, t: string)
    requires IsCString(s) && IsCString(t) && Encode(s) == Encode(t)
    requires forall i :: 0 <= i < |s| ==> !SharedAt(s, i)
    ensures s == t
    decreases |s|
  {
    OnlyEmptyIsEmpty(s);
    OnlyEmptyIsEmpty(t);
    if s != "" {
      CStringTail(s);
      CStringTail(t);
      SameFirst(s, t);
      forall i | 0 <= i < |s| - 1 ensures !SharedAt(s[1..], i) {
        assert !SharedAt(s, i + 1);
      }
      OwnEncoding(s[1..], t[1..]);
    }
  }

  lemma OnlyEmptyIsEmpty(s: string)
    requires IsCString(s)
    ensures Encode(s) == "" <==> s == ""
  {
    if s != "" {
      CStringTail(s);
      EncodedChar(s[0], Encode(s[1..]));
    }
  }

  /** The first character of an encoding is the first of the string, or a percent sign. */
  lemma EncodedHead(s: string)
    requires IsCString(s) && s != ""
    ensures Encode(s) != "" && (Encode(s)[0] == if Unreserved(s[0]) then s[0] else '%')
  {
    CStringTail(s);
    EncodedChar(s[0], Encode(s[1..]));
  }

  lemma SameFirst(s: string, t: string)
    requires IsCString(s) && IsCString(t) && s != "" && t != "" && Encode(s) == Encode(t)
    requires !SharedAt(s, 0)
    ensures s[0] == t[0] && Encode(s[1..]) == Encode(t[1..])
  {
    CStringTail(s);
    CStringTail(t);
    EncodedChar(s[0], Encode(s[1..]));
    EncodedChar(t[0], Encode(t[1..]));
    if s[0] as int < 0x10 <= t[0] as int {
      NotCompleted(s, t);
    }
  }

  /** A byte below 0x10 and what follows it cannot pass for an escaped byte unless they complete it. */
  lemma NotCompleted(s: string, t: string)
    requires IsCString(s) && IsCString(t) && s != "" && t != "" && s[0] as int < 0x10 <= t[0] as int
    requires !SharedAt(s, 0)
    ensures Encode(s) != Encode(t)
  {
    CStringTail(s);
    CStringTail(t);
    EncodedChar(s[0], Encode(s[1..]));
    EncodedChar(t[0], Encode(t[1..]));
    OnlyEmptyIsEmpty(s[1..]);
    TwoDigits(t[0] as int);
    if |s| > 1 {
      EncodedHead(s[1..]);
    }
  }

  /** Only unreserved characters and percent signs followed by two hexadecimal digits. */
  predicate WellFormed(t: string) {
    t == "" ||
    (if t[0] == '%' then |t| >= 3 && IsHex(t[1]) && IsHex(t[2]) && WellFormed(t[3..])
     else Unreserved(t[0]) && WellFormed(t[1..]))
  }

  /** Every byte below 0x10 is followed by a character that completes its triplet. */
  predicate Completed(s: string) {
    forall i :: 0 <= i < |s| && s[i] as int < 0x10 ==> i + 1 < |s| && IsHex(s[i + 1])
  }

  lemma CompletedTail(s: string)
    requires s != ""
    ensures s[0] as int >= 0x10 ==> (Completed(s) <==> Completed(s[1..]))
    ensures s[0] as int < 0x10 ==> (Completed(s) <==> |s| > 1 && IsHex(s[1]) && Completed(s[2..]))
  {
    assert forall i :: 0 <= i < |s| - 1 ==> s[1..][i] == s[i + 1];
    assert |s| > 1 ==> forall i :: 0 <= i < |s| - 2 ==> s[2..][i] == s[i + 2];
    if s[0] as int >= 0x10 && Completed(s[1..]) {
      forall i | 0 <= i < |s| && s[i] as int < 0x10 ensures i + 1 < |s| && IsHex(s[i + 1]) {
        assert s[1..][i - 1] == s[i];
      }
    }
    if s[0] as int < 0x10 && |s| > 1 && IsHex(s[1]) && Completed(s[2..]) {
      forall i | 0 <= i < |s| && s[i] as int < 0x10 ensures i + 1 < |s| && IsHex(s[i + 1]) {
        if i > 0 {
          assert i > 1 && s[2..][i - 2] == s[i];
        }
      }
    }
  }

  /** The output is made of unreserved characters and two-digit triplets exactly when every byte below
      0x10 happens to be followed by a hexadecimal digit, which then belongs to its triplet. */
  lemma {:induction false} WellFormedExactly(s: string)
    requires IsCString(s)
    ensures WellFormed(Encode(s)) <==> Completed(s)
    decreases |s|
  {
    if s != "" {
      var c, rest, u := s[0], s[1..], Encode(s);
      CStringTail(s);
      EncodedChar(c, Encode(rest));
      CompletedTail(s);
      if c as int >= 0x10 {
        WellFormedExactly(rest);
      } else if rest != "" {
        var d, more := rest[0], rest[1..];
        CStringTail(rest);
        EncodedChar(d, Encode(more));
        assert u[2..] == Encode(rest) && u[2] == Encode(rest)[0] && more == s[2..];
        if IsHex(d) {
          WellFormedExactly(more);
          assert u[3..] == Encode(rest)[1..] == Encode(more);
        }
      }
    }
  }
}
