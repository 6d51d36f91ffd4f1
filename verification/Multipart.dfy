/** The multipart body that `POST` builds from its blocks, and a parser that reads it back. */
module Multipart {
  import opened Basics
  import opened Percent
  import opened Query

  datatype Block = Block(name: string, value: Value)

  const BOUNDARY: string := "boundary"
  const OPEN: string := "--boundary"
  const HEAD: string := "\nContent-Disposition:form-data;name=\""
  const SEPARATOR: string := "\"\n\n"
  const DELIMITER: string := "\n--boundary"

  function Part(b: Block): string {
    OPEN + HEAD + b.name + SEPARATOR + Str(b.value) + "\n"
  }

  function Parts(bs: seq<Block>): string {
    if bs == [] then "" else Part(bs[0]) + Parts(bs[1..])
  }

  function Body(bs: seq<Block>): string {
    Parts(bs) + OPEN + "--"
  }

  lemma {:induction false} PartsConcat(a: seq<Block>, b: seq<Block>)
    ensures Parts(a + b) == Parts(a) + Parts(b)
  {
    if a == [] {
      assert a + b == b;
    } else {
      assert (a + b)[1..] == a[1..] + b;
      PartsConcat(a[1..], b);
    }
  }

  lemma PartsStep(bs: seq<Block>, i: nat)
    requires i < |bs|
    ensures Parts(bs[..i + 1]) == Parts(bs[..i]) + Part(bs[i])
  {
    PartsConcat(bs[..i], [bs[i]]);
    assert bs[..i + 1] == bs[..i] + [bs[i]] && [bs[i]][1..] == [];
    assert Parts([bs[i]]) == Part(bs[i]) + "" == Part(bs[i]);
  }

  /** The body that `POST(vector<data_block>)` sends. */
  method BuildBody(data: seq<Block>) returns (multipart: string)
    ensures multipart == Body(data)
  {
    multipart := "";
    for i := 0 to |data|
      invariant multipart == Parts(data[..i])
    {
      var block := data[i];
      PartsStep(data, i);
      var part := "--" + BOUNDARY + "\nContent-Disposition:form-data;name=\""
                  + block.name + "\"\n\n" + Str(block.value) + "\n";
      assert part == Part(block) by {
        hide Str;
        assert "--" + BOUNDARY == OPEN;
        assert OPEN + "\nContent-Disposition:form-data;name=\"" == OPEN + HEAD;
      }
      hide Part, Parts;
      multipart := multipart + part;
    }
    assert data[..|data|] == data;
    var last := "--" + BOUNDARY + "--";
    assert last == OPEN + "--";
    multipart := multipart + last;
  }

  // ------------------------------------------------------------------------
  // Reading it back
  // ------------------------------------------------------------------------

  /** Where `d` occurs first in `t`. */
  function Find(t: string, d: string): (r: Option<nat>)
    ensures r.Some? ==> r.value + |d| <= |t|
  {
    if d <= t then Some(0)
    else if t == "" then None
    else
      match Find(t[1..], d)
      case None => None
      case Some(k) => Some(k + 1)
  }

  predicate OccursAt(t: string, d: string, i: nat) {
    i + |d| <= |t| && t[i..i + |d|] == d
  }

  ghost predicate Contains(t: string, d: string) {
    exists i :: OccursAt(t, d, i)
  }

  lemma OccursInTail(t: string, d: string, i: nat)
    requires t != ""
    ensures OccursAt(t[1..], d, i) <==> OccursAt(t, d, i + 1)
  {
    if i + 1 + |d| <= |t| {
      assert t[1..][i..i + |d|] == t[i + 1..i + 1 + |d|];
    }
  }

  lemma {:induction false} FindFinds(t: string, d: string)
    ensures Find(t, d).Some? <==> Contains(t, d)
  {
    if d <= t {
      assert OccursAt(t, d, 0);
    } else if t != "" {
      assert !OccursAt(t, d, 0);
      FindFinds(t[1..], d);
      if Contains(t[1..], d) {
        var i: nat :| OccursAt(t[1..], d, i);
        OccursInTail(t, d, i);
      }
      if Contains(t, d) {
        var i: nat :| OccursAt(t, d, i);
        OccursInTail(t, d, i - 1);
      }
    }
  }

  /** The delimiter does not overlap itself: its newline comes first and nowhere else. */
  lemma DelimiterOnlyAtEnd(v: string, w: string)
    requires DELIMITER <= w && v != "" && DELIMITER <= v + w
    ensures DELIMITER <= v
  {
    assert w[0] == DELIMITER[0] == '\n';
    assert (v + w)[|v|] == '\n';
  }

  /** Before a delimiter, the first occurrence is the end of the value exactly when the value has none. */
  lemma {:induction false} FirstDelimiter(v: string, w: string)
    requires DELIMITER <= w
    ensures var k := Find(v + w, DELIMITER);
            k.Some? && k.value <= |v| && (k.value == |v| <==> !Contains(v, DELIMITER))
  {
    FindFinds(v, DELIMITER);
    if v == "" {
      assert v + w == w;
    } else if DELIMITER <= v + w {
      DelimiterOnlyAtEnd(v, w);
    } else {
      assert (v + w)[1..] == v[1..] + w;
      FirstDelimiter(v[1..], w);
      FindFinds(v[1..], DELIMITER);
    }
  }

  /** Text that starts like a part is read as the name up to the first quote, then the value up to the next
      boundary on a line of its own. */
  function ParseNamed(u: string): Option<(string, string, string)> {
    match Cut(u, '"')
    case Whole => None
    case At(name, rest) => if "\n\n" <= rest then ParseValue(name, rest[2..]) else None
  }

  function ParseValue(name: string, x: string): Option<(string, string, string)> {
    match Find(x, "\n--boundary")
    case None => None
    case Some(k) => Some((name, x[..k], x[k + 1..]))
  }

  const PART_HEADER: string := "--boundary" + "\nContent-Disposition:form-data;name=\""

  /** One block, and the text from the next boundary on. */
  function ParsePart(t: string): Option<(string, string, string)> {
    if PART_HEADER <= t then ParseNamed(t[|PART_HEADER|..]) else None
  }

  lemma ParsePartShortens(t: string)
    ensures ParsePart(t).Some? ==> |ParsePart(t).value.2| < |t|
  {
    if PART_HEADER <= t {
      CutShortens(t[|PART_HEADER|..], '"');
    }
  }

  function ParseBody(t: string): Option<seq<(string, string)>>
    decreases |t|
  {
    if t == "--boundary" + "--" then Some([])
    else
      ParsePartShortens(t);
      match ParsePart(t)
      case None => None
      case Some(p) =>
        match ParseBody(p.2)
        case None => None
        case Some(ps) => Some([(p.0, p.1)] + ps)
  }

  function Fields(bs: seq<Block>): seq<(string, string)> {
    if bs == [] then [] else [(bs[0].name, Str(bs[0].value))] + Fields(bs[1..])
  }

  /** What the caller has to respect: nothing is escaped. */
  ghost predicate Plain(b: Block) {
    '"' !in b.name && (b.value.StrValue? ==> !Contains(b.value.s, "\n--boundary"))
  }

  lemma PlainText(b: Block)
    ensures Plain(b) <==> '"' !in b.name && !Contains(Str(b.value), DELIMITER)
  {
    if b.value.IntValue? {
      var t := Signed(b.value.n);
      SignedIsPrintable(b.value.n);
      forall i: nat ensures !OccursAt(t, DELIMITER, i) {
        if i + |DELIMITER| <= |t| {
          assert t[i..i + |DELIMITER|][0] == t[i] && t[i] in t;
          assert DELIMITER[0] == '\n';
        }
      }
    }
  }

  lemma SignedIsPrintable(n: int)
    ensures '\n' !in Signed(n)
  {
    if n < 0 {
      assert '\n' !in Decimal(-n);
    }
  }

  lemma ValueReadsBack(name: string, v: string, rest: string)
    requires OPEN <= rest
    ensures var r := ParseValue(name, v + ("\n" + rest));
            if !Contains(v, DELIMITER) then r == Some((name, v, rest))
            else r.Some? && r.value.1 != v
  {
    var w := "\n" + rest;
    DelimiterAhead(rest);
    FirstDelimiter(v, w);
    hide Contains, Find;
    CutAt(v, rest, Find(v + w, DELIMITER).value);
  }

  lemma DelimiterAhead(rest: string)
    requires OPEN <= rest
    ensures DELIMITER <= "\n" + rest
  {
    assert DELIMITER == "\n" + OPEN;
    assert ("\n" + rest)[..|DELIMITER|] == DELIMITER;
  }

  lemma CutAt(v: string, rest: string, k: nat)
    requires k <= |v|
    ensures var t := v + ("\n" + rest);
            if k == |v| then t[..k] == v && t[k + 1..] == rest else t[..k] != v
  {
    assert |(v + ("\n" + rest))[..k]| == k;
  }

  lemma NamedReadsBack(name: string, v: string, rest: string)
    requires OPEN <= rest
    ensures var r := ParseNamed(name + SEPARATOR + v + "\n" + rest);
            if '"' !in name && !Contains(v, DELIMITER) then r == Some((name, v, rest))
            else r.Some? ==> r.value.0 != name || r.value.1 != v
  {
    var body := "\n\n" + (v + ("\n" + rest));
    var u := name + SEPARATOR + v + "\n" + rest;
    assert u == name + ['"'] + body == name + (['"'] + body);
    if '"' in name {
      CutWithin(name, '"', ['"'] + body);
    } else {
      CutConcat(name, '"', body);
      assert body[..2] == "\n\n" && body[2..] == v + ("\n" + rest);
      ValueReadsBack(name, v, rest);
    }
  }

  /** The printer and the parser agree on how a part starts. */
  lemma PartStarts(b: Block, rest: string)
    ensures var u := b.name + SEPARATOR + Str(b.value) + "\n" + rest;
            var t := Part(b) + rest;
            PART_HEADER <= t && t[|PART_HEADER|..] == u
  {
    HeaderIsSame();
    Regroup(OPEN, HEAD, b.name, SEPARATOR, Str(b.value), "\n", rest);
    assert Part(b) + rest == PART_HEADER + (b.name + SEPARATOR + Str(b.value) + "\n" + rest) by {
      hide Str;
    }
    hide Part, Str;
  }

  lemma HeaderIsSame()
    ensures OPEN + HEAD == PART_HEADER
  {
  }

  lemma Regroup(a: string, b: string, c: string, d: string, e: string, f: string, g: string)
    ensures a + b + c + d + e + f + g == (a + b) + (c + d + e + f + g)
  {
  }

  /** The first part of a body is read back exactly when its block is plain. */
  lemma PartReadsBack(b: Block, rest: string)
    requires OPEN <= rest
    ensures var r := ParsePart(Part(b) + rest);
            if Plain(b) then r == Some((b.name, Str(b.value), rest))
            else r.Some? ==> r.value.0 != b.name || r.value.1 != Str(b.value)
  {
    PlainText(b);
    PartStarts(b, rest);
    hide ParseNamed, Contains, Str, Plain, Part;
    NamedReadsBack(b.name, Str(b.value), rest);
  }

  lemma BodyStarts(bs: seq<Block>)
    ensures OPEN <= Body(bs)
    ensures bs != [] ==> Body(bs) == Part(bs[0]) + Body(bs[1..]) && Body(bs) != OPEN + "--"
  {
    if bs != [] {
      var t := Body(bs);
      assert t == Part(bs[0]) + Body(bs[1..]);
      assert t[|OPEN|] == HEAD[0] == '\n';
      assert (OPEN + "--")[|OPEN|] == '-';
      assert t[..|OPEN|] == OPEN;
    }
  }

  /** What was read are the names of the blocks, in order, each with the text of its value. */
  ghost predicate ReadsBackBlocks(bs: seq<Block>, read: Option<seq<(string, string)>>) {
    && read.Some? && |read.value| == |bs|
    && forall i :: 0 <= i < |bs| ==> read.value[i].0 == bs[i].name && Reads(bs[i].value, read.value[i].1)
  }

  lemma {:induction false} FieldsAt(bs: seq<Block>)
    ensures |Fields(bs)| == |bs| && forall i :: 0 <= i < |bs| ==> Fields(bs)[i] == (bs[i].name, Str(bs[i].value))
  {
    if bs != [] {
      FieldsAt(bs[1..]);
    }
  }

  lemma ReadsBackFields(bs: seq<Block>, read: Option<seq<(string, string)>>)
    ensures ReadsBackBlocks(bs, read) <==> read == Some(Fields(bs))
  {
    FieldsAt(bs);
    forall i, text | 0 <= i < |bs|
      ensures Reads(bs[i].value, text) <==> text == Str(bs[i].value)
    {
      ReadsExactly(bs[i].value, text);
    }
    hide Reads, Str;
    if ReadsBackBlocks(bs, read) {
      assert read.value == Fields(bs);
    }
  }

  lemma {:induction false} FieldsReadBackExactly(bs: seq<Block>)
    ensures ParseBody(Body(bs)) == Some(Fields(bs)) <==> forall b <- bs :: Plain(b)
  {
    hide Plain, Contains, Str, Part, ParsePart;
    BodyStarts(bs);
    if bs == [] {
      assert Body(bs) == OPEN + "--";
    } else {
      var b, rest := bs[0], bs[1..];
      var t := Body(bs);
      assert bs == [b] + rest;
      assert (forall x <- bs :: Plain(x)) <==> Plain(b) && forall x <- rest :: Plain(x);
      BodyStarts(rest);
      PartReadsBack(b, Body(rest));
      FieldsReadBackExactly(rest);
      if ParseBody(t).Some? {
        var r := ParseBody(t).value;
        assert r[0] == (ParsePart(t).value.0, ParsePart(t).value.1);
        assert r[1..] == ParseBody(ParsePart(t).value.2).value;
        assert Fields(bs)[0] == (b.name, Str(b.value)) && Fields(bs)[1..] == Fields(rest);
      }
    }
  }

  /** The parser recovers the names and values exactly when no name holds a quote and no string value the
      delimiter. */
  lemma BodyReadsBackExactly(bs: seq<Block>)
    ensures ReadsBackBlocks(bs, ParseBody(Body(bs))) <==> forall b <- bs :: Plain(b)
  {
    ReadsBackFields(bs, ParseBody(Body(bs)));
    FieldsReadBackExactly(bs);
  }
}
