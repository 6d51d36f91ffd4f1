/** The query strings that `UrlValues::add` builds, and a parser that reads them back. */
module Query {
  import opened Basics
  import opened Percent

  /** `http::value`: an `int`, or a C string that is not null. */
  datatype Value = IntValue(n: int) | StrValue(s: string)

  predicate Representable(v: Value) {
    match v
    case IntValue(n) => -0x8000_0000 <= n < 0x8000_0000
    case StrValue(s) => IsCString(s)
  }

  // ------------------------------------------------------------------------
  // value::str
  // ------------------------------------------------------------------------

  function Digit(n: nat): char
    requires n < 10
  {
    ('0' as int + n) as char
  }

  predicate AllDigits(s: string) {
    forall c <- s :: '0' <= c <= '9'
  }

  function Decimal(n: nat): (s: string)
    ensures s != "" && AllDigits(s)
  {
    if n < 10 then [Digit(n)] else Decimal(n / 10) + [Digit(n % 10)]
  }

  /** The printf conversion `%d`. */
  function Signed(n: int): string {
    if n < 0 then "-" + Decimal(-n) else Decimal(n)
  }

  function Str(v: Value): string {
    match v
    case IntValue(n) => Signed(n)
    case StrValue(s) => s
  }

  function ParseDecimal(s: string): nat
    requires AllDigits(s)
  {
    if s == "" then 0
    else
      var init, last := s[..|s| - 1], s[|s| - 1];
      assert last in s && forall c <- init :: c in s;
      10 * ParseDecimal(init) + (last as int - '0' as int)
  }

  function ParseSigned(s: string): Option<int> {
    if s != "" && s[0] == '-' && s[1..] != "" && AllDigits(s[1..]) then Some(0 - ParseDecimal(s[1..]))
    else if s != "" && AllDigits(s) then Some(ParseDecimal(s))
    else None
  }

  lemma {:induction false} ParseUndoesDecimal(n: nat)
    ensures ParseDecimal(Decimal(n)) == n
  {
    var s := Decimal(n);
    if n >= 10 {
      ParseUndoesDecimal(n / 10);
      assert s[..|s| - 1] == Decimal(n / 10) && s[|s| - 1] == Digit(n % 10);
    } else {
      assert s[..|s| - 1] == "" && s[|s| - 1] == Digit(n);
    }
  }

  /** An integer value comes back from its text. */
  lemma ParseUndoesSigned(n: int)
    ensures ParseSigned(Signed(n)) == Some(n)
  {
    if n < 0 {
      ParseUndoesDecimal(-n);
      var s := Signed(n);
      assert s[0] == '-' && s[1..] == Decimal(-n);
    } else {
      ParseUndoesDecimal(n);
      assert Decimal(n)[0] in Decimal(n);
    }
  }

  /** The text of value `v`: a string itself, an integer in decimal without leading zeros. */
  predicate Reads(v: Value, text: string) {
    match v
    case StrValue(s) => text == s
    case IntValue(n) => ParseSigned(text) == Some(n) && (text == "0" || StartsNonzero(text))
  }

  predicate StartsNonzero(text: string) {
    var digits := if text != "" && text[0] == '-' then text[1..] else text;
    digits != "" && digits[0] != '0'
  }

  /** A value has one such text, and that is what it is turned into. */
  lemma ReadsExactly(v: Value, text: string)
    ensures Reads(v, text) <==> text == Str(v)
  {
    if v.IntValue? {
      var n := v.n;
      if Reads(v, text) {
        NumeralIsSigned(n, text);
      }
      ParseUndoesSigned(n);
      SignedIsShort(n);
    }
  }

  lemma ParseLast(s: string)
    requires AllDigits(s) && s != ""
    ensures var init, last := s[..|s| - 1], s[|s| - 1];
            && AllDigits(init) && '0' <= last <= '9' && s == init + [last]
            && ParseDecimal(s) == 10 * ParseDecimal(init) + (last as int - '0' as int)
  {
    var init := s[..|s| - 1];
    assert s[|s| - 1] in s && forall c <- init :: c in s;
  }

  lemma {:induction false} DecimalOfDigits(s: string)
    requires AllDigits(s) && s != "" && s[0] != '0'
    ensures ParseDecimal(s) > 0 && Decimal(ParseDecimal(s)) == s
    decreases |s|
  {
    ParseLast(s);
    if |s| == 1 {
      DecimalOfDigit(s);
    } else {
      hide Decimal, ParseDecimal, AllDigits, Digit;
      DecimalOfDigits(s[..|s| - 1]);
      DecimalOfLonger(s[..|s| - 1], s[|s| - 1], ParseDecimal(s[..|s| - 1]));
    }
  }

  lemma DecimalOfDigit(s: string)
    requires |s| == 1 && '0' < s[0] <= '9' && AllDigits(s)
    ensures ParseDecimal(s) > 0 && Decimal(ParseDecimal(s)) == s
  {
    assert s[..0] == "" && s == [s[0]];
  }

  lemma DecimalOfLonger(init: string, last: char, n: nat)
    requires n > 0 && Decimal(n) == init && '0' <= last <= '9'
    ensures Decimal(10 * n + (last as int - '0' as int)) == init + [last]
  {
    DecimalStep(n, last as int - '0' as int);
  }

  lemma DecimalStep(n: nat, d: nat)
    requires d < 10
    ensures Decimal(10 * n + d) == (if n == 0 then "" else Decimal(n)) + [Digit(d)]
  {
    assert (10 * n + d) / 10 == n && (10 * n + d) % 10 == d;
  }

  lemma NumeralIsSigned(n: int, text: string)
    requires ParseSigned(text) == Some(n) && (text == "0" || StartsNonzero(text))
    ensures text == Signed(n)
  {
    assert text[0] in text;
    if text[0] == '-' {
      DecimalOfDigits(text[1..]);
      assert text == "-" + text[1..];
    } else if text == "0" {
      assert text[..0] == "" && ParseDecimal(text) == 0;
    } else {
      DecimalOfDigits(text);
    }
  }

  lemma {:induction false} DecimalIsShort(n: nat)
    ensures Decimal(n)[0] != '0' <==> n > 0
  {
    if n >= 10 {
      DecimalIsShort(n / 10);
    }
  }

  lemma SignedIsShort(n: int)
    ensures Signed(n) == "0" || StartsNonzero(Signed(n))
  {
    if n < 0 {
      DecimalIsShort(-n);
      assert Signed(n)[1..] == Decimal(-n);
    } else {
      DecimalIsShort(n);
      assert Decimal(n)[0] in Decimal(n);
    }
  }

  // ------------------------------------------------------------------------
  // UrlValues
  // ------------------------------------------------------------------------

  datatype Pair = Pair(name: string, value: Value)

  function Field(p: Pair): string {
    p.name + "=" + Encode(Str(p.value))
  }

  function AddTo(str: string, p: Pair): string {
    (if str == "" then "" else str + "&") + Field(p)
  }

  function AddAll(ps: seq<Pair>): string {
    if ps == [] then "" else AddTo(AddAll(ps[..|ps| - 1]), ps[|ps| - 1])
  }

  class UrlValues {
    var str: string

    constructor ()
      ensures str == ""
    {
      str := "";
    }

    method Add(name: string, value: Value)
      requires Representable(value)
      modifies this
      ensures str == AddTo(old(str), Pair(name, value))
      ensures exists text :: Reads(value, text) &&
                str == (if old(str) == "" then "" else old(str) + "&") + name + "=" + Encode(text)
    {
      if str != "" {
        str := str + "&";
      }
      CStringOf(value);
      var text := Str(value);
      ReadsExactly(value, text);
      var encoded := UrlEncode(text);
      str := str + name + "=" + encoded;
    }
  }

  lemma CStringOf(v: Value)
    requires Representable(v)
    ensures IsCString(Str(v))
    ensures v.IntValue? ==> forall c <- Str(v) :: c as int >= 0x10
  {
    if v.IntValue? && v.n < 0 {
      forall c <- Str(v) ensures 0x10 <= c as int < 256 {
        assert c == '-' || c in Decimal(-v.n);
      }
    }
  }

  // ------------------------------------------------------------------------
  // Reading it back
  // ------------------------------------------------------------------------

  datatype Cutting = Whole | At(before: string, after: string)

  /** The text before and after the first `c`. */
  function Cut(t: string, c: char): Cutting {
    if t == "" then Whole
    else if t[0] == c then At("", t[1..])
    else
      match Cut(t[1..], c)
      case Whole => Whole
      case At(before, after) => At([t[0]] + before, after)
  }

  lemma {:induction false} CutConcat(a: string, c: char, b: string)
    requires c !in a
    ensures Cut(a + [c] + b, c) == At(a, b)
  {
    if a == "" {
      assert ([c] + b)[1..] == b && a + [c] + b == [c] + b;
    } else {
      assert (a + [c] + b)[1..] == a[1..] + [c] + b;
      CutConcat(a[1..], c, b);
      assert [a[0]] + a[1..] == a;
    }
  }

  /** If `c` occurs in `a`, the cut is within `a`. */
  lemma {:induction false} CutWithin(a: string, c: char, b: string)
    requires c in a
    ensures Cut(a + b, c).At? && |Cut(a + b, c).before| < |a| && Cut(a + b, c).before <= a
  {
    if a[0] != c {
      assert (a + b)[1..] == a[1..] + b;
      CutWithin(a[1..], c, b);
      assert a == [a[0]] + a[1..];
    }
  }

  lemma {:induction false} CutNothing(a: string, c: char)
    requires c !in a
    ensures Cut(a, c) == Whole
  {
    if a != "" {
      CutNothing(a[1..], c);
    }
  }

  lemma {:induction false} CutShortens(t: string, c: char)
    ensures Cut(t, c).At? ==> |Cut(t, c).after| < |t|
  {
    if t != "" && t[0] != c {
      CutShortens(t[1..], c);
    }
  }

  function ParseField(t: string): Option<(string, string)> {
    match Cut(t, '=')
    case Whole => None
    case At(name, text) =>
      match Decode(text)
      case None => None
      case Some(value) => Some((name, value))
  }

  /** Fields separated by `&`; at least one. */
  function ParseFields(t: string): Option<seq<(string, string)>>
    decreases |t|
  {
    CutShortens(t, '&');
    match Cut(t, '&')
    case Whole =>
      (match ParseField(t)
       case None => None
       case Some(p) => Some([p]))
    case At(field, rest) =>
      match ParseField(field)
      case None => None
      case Some(p) =>
        match ParseFields(rest)
        case None => None
        case Some(ps) => Some([p] + ps)
  }

  function ParseQuery(t: string): Option<seq<(string, string)>> {
    if t == "" then Some([]) else ParseFields(t)
  }

  /** The names and the texts of the values that were added. */
  function Texts(ps: seq<Pair>): seq<(string, string)> {
    if ps == [] then [] else [(ps[0].name, Str(ps[0].value))] + Texts(ps[1..])
  }

  /** What the caller has to respect: names are not encoded, and low bytes are encoded badly. */
  predicate Clean(p: Pair) {
    && '&' !in p.name && '=' !in p.name
    && (p.value.StrValue? ==> forall c <- p.value.s :: c as int >= 0x10)
  }

  lemma CleanText(p: Pair)
    requires Representable(p.value)
    ensures Clean(p) <==> '&' !in p.name && '=' !in p.name && forall c <- Str(p.value) :: c as int >= 0x10
  {
    CStringOf(p.value);
  }

  /** The same string built from the front. */
  function Render(ps: seq<Pair>): string
    requires ps != []
  {
    if |ps| == 1 then Field(ps[0]) else Field(ps[0]) + "&" + Render(ps[1..])
  }

  lemma {:induction false} RenderLast(ps: seq<Pair>, p: Pair)
    requires ps != []
    ensures Render(ps + [p]) == Render(ps) + "&" + Field(p)
    decreases |ps|
  {
    var all := ps + [p];
    if |ps| == 1 {
      assert all[1..] == [p];
    } else {
      assert all[1..] == ps[1..] + [p];
      RenderLast(ps[1..], p);
    }
  }

  lemma {:induction false} AddAllRenders(ps: seq<Pair>)
    ensures AddAll(ps) == if ps == [] then "" else Render(ps)
  {
    if ps != [] {
      var init, last := ps[..|ps| - 1], ps[|ps| - 1];
      AddAllRenders(init);
      if init != [] {
        RenderLast(init, last);
        assert init + [last] == ps;
        assert Render(init) != "";
      }
    }
  }

  lemma {:induction false} EncodedHas(s: string, c: char)
    requires IsCString(s) && c in Encode(s)
    ensures Unreserved(c) || c == '%'
  {
    var rest := s[1..];
    CStringTail(s);
    if c in Encode(rest) {
      EncodedHas(rest, c);
    } else {
      assert c in EncodeChar(s[0]);
      HexIsAlnum(s[0] as int, c);
    }
  }

  lemma {:induction false} HexIsAlnum(n: nat, c: char)
    ensures c in Hex(n) ==> IsAlnum(c)
  {
    if n >= 16 && c in Hex(n / 16) {
      HexIsAlnum(n / 16, c);
    }
  }

  /** A field is read back exactly when its pair is clean; `tail` is what follows its `&`, if anything does. */
  lemma FieldReadsBack(p: Pair)
    requires Representable(p.value)
    ensures ParseField(Field(p)) == Some((p.name, Str(p.value))) <==>
            '=' !in p.name && forall c <- Str(p.value) :: c as int >= 0x10
  {
    var e := Encode(Str(p.value));
    CStringOf(p.value);
    assert Field(p) == p.name + ['='] + e == p.name + (['='] + e);
    if '=' in p.name {
      CutWithin(p.name, '=', ['='] + e);
    } else {
      CutConcat(p.name, '=', e);
      DecodeUndoesExactly(Str(p.value));
    }
  }

  /** With an `&` in the name, the field that is found is cut short and carries another name. */
  lemma NameIsCut(p: Pair, tail: string)
    requires '&' in p.name
    ensures var cut := Cut(Field(p) + tail, '&');
            cut.At? && (ParseField(cut.before).Some? ==> ParseField(cut.before).value.0 != p.name)
  {
    var rest := "=" + Encode(Str(p.value)) + tail;
    assert Field(p) + tail == p.name + rest;
    CutWithin(p.name, '&', rest);
    CutNoLonger(Cut(Field(p) + tail, '&').before, '=');
  }

  lemma {:induction false} CutNoLonger(t: string, c: char)
    ensures Cut(t, c).At? ==> |Cut(t, c).before| <= |t|
  {
    if t != "" && t[0] != c {
      CutNoLonger(t[1..], c);
    }
  }

  lemma OneFieldReadsBack(p: Pair)
    requires Representable(p.value) && '&' !in p.name
    ensures ParseFields(Field(p)) == Some([(p.name, Str(p.value))]) <==> Clean(p)
  {
    CleanText(p);
    FieldReadsBack(p);
    FieldHasNoAmpersand(p);
    CutNothing(Field(p), '&');
    hide Field, ParseField;
    if ParseFields(Field(p)).Some? {
      assert ParseFields(Field(p)).value[0] == ParseField(Field(p)).value;
    }
  }

  lemma FirstFieldReadsBack(p: Pair, rest: string, texts: seq<(string, string)>)
    requires Representable(p.value) && '&' !in p.name
    ensures ParseFields(Field(p) + "&" + rest) == Some([(p.name, Str(p.value))] + texts) <==>
            Clean(p) && ParseFields(rest) == Some(texts)
  {
    CleanText(p);
    FieldReadsBack(p);
    FieldHasNoAmpersand(p);
    CutConcat(Field(p), '&', rest);
    FirstAndRest(Field(p) + "&" + rest, Field(p), rest);
  }

  lemma {:induction false} FieldsReadBack(ps: seq<Pair>)
    requires ps != [] && forall p <- ps :: Representable(p.value)
    ensures ParseFields(Render(ps)) == Some(Texts(ps)) <==> forall p <- ps :: Clean(p)
    decreases |ps|
  {
    var p, rest := ps[0], ps[1..];
    hide Clean, Str, Field, Representable;
    assert ps == [p] + rest && Texts(ps) == [(p.name, Str(p.value))] + Texts(rest);
    assert (forall x <- ps :: Clean(x)) <==> Clean(p) && forall x <- rest :: Clean(x);
    if '&' in p.name {
      var tail := if rest == [] then "" else "&" + Render(rest);
      assert Render(ps) == Field(p) + tail;
      NameIsCut(p, tail);
      if ParseFields(Render(ps)).Some? {
        assert ParseFields(Render(ps)).value[0].0 != p.name;
      }
    } else if rest == [] {
      OneFieldReadsBack(p);
      assert Texts(rest) == [] && Texts(ps) == [(p.name, Str(p.value))];
    } else {
      FieldsReadBack(rest);
      FirstFieldReadsBack(p, Render(rest), Texts(rest));
    }
  }

  lemma FieldHasNoAmpersand(p: Pair)
    requires Representable(p.value) && '&' !in p.name
    ensures '&' !in Field(p)
  {
    CStringOf(p.value);
    if '&' in Encode(Str(p.value)) {
      EncodedHas(Str(p.value), '&');
    }
  }

  lemma FirstAndRest(t: string, field: string, rest: string)
    requires Cut(t, '&') == At(field, rest)
    ensures forall x, xs :: ParseFields(t) == Some([x] + xs) <==>
              ParseField(field) == Some(x) && ParseFields(rest) == Some(xs)
  {
    forall x: (string, string), xs: seq<(string, string)>
      ensures ParseFields(t) == Some([x] + xs) <==> ParseField(field) == Some(x) && ParseFields(rest) == Some(xs)
    {
      if ParseFields(t).Some? {
        var r := ParseFields(t).value;
        assert r[1..] == ParseFields(rest).value && r[0] == ParseField(field).value;
        assert ([x] + xs)[1..] == xs && ([x] + xs)[0] == x;
      }
    }
  }

  /** What was read are the names that were added, in order, each with the text of its value. */
  ghost predicate ReadsBack(ps: seq<Pair>, read: Option<seq<(string, string)>>) {
    && read.Some? && |read.value| == |ps|
    && forall i :: 0 <= i < |ps| ==> read.value[i].0 == ps[i].name && Reads(ps[i].value, read.value[i].1)
  }

  lemma {:induction false} TextsAt(ps: seq<Pair>)
    ensures |Texts(ps)| == |ps| && forall i :: 0 <= i < |ps| ==> Texts(ps)[i] == (ps[i].name, Str(ps[i].value))
  {
    if ps != [] {
      TextsAt(ps[1..]);
    }
  }

  lemma ReadsBackTexts(ps: seq<Pair>, read: Option<seq<(string, string)>>)
    ensures ReadsBack(ps, read) <==> read == Some(Texts(ps))
  {
    TextsAt(ps);
    forall i, text | 0 <= i < |ps|
      ensures Reads(ps[i].value, text) <==> text == Str(ps[i].value)
    {
      ReadsExactly(ps[i].value, text);
    }
    hide Reads, Str;
    if ReadsBack(ps, read) {
      assert read.value == Texts(ps);
    }
  }

  /** Whatever was added to an empty `UrlValues`, parsing its string gives back the names and values
      exactly when no name holds `&` or `=` and no string value a byte below 0x10. */
  lemma QueryReadsBackExactly(ps: seq<Pair>)
    requires forall p <- ps :: Representable(p.value)
    ensures ReadsBack(ps, ParseQuery(AddAll(ps))) <==> forall p <- ps :: Clean(p)
  {
    ReadsBackTexts(ps, ParseQuery(AddAll(ps)));
    AddAllRenders(ps);
    if ps != [] {
      FieldsReadBack(ps);
      assert Render(ps) != "";
    }
  }
}
