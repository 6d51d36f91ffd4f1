/** The loops that move a stream in chunks: the output of a command and the bytes of a file. */
module ChunkLoops {
  import opened Basics

  // ------------------------------------------------------------------------
  // exec_cmd
  // ------------------------------------------------------------------------

  const BUFFER_SIZE: nat := 128
  const NUL: char := '\0'

  /** How much of the remaining output one `fgets` takes: a line, or as much as fits. */
  function Taken(out: string, room: nat): (n: nat)
    ensures n <= |out| && n <= room && (out != "" && room > 0 ==> n > 0)
    ensures forall k :: 0 <= k < n - 1 ==> out[k] != '\n'
    ensures n == |out| || n == room || (n > 0 && out[n - 1] == '\n')
  {
    if out == "" || room == 0 then 0
    else if out[0] == '\n' then 1
    else 1 + Taken(out[1..], room - 1)
  }

  /** What `strlen` makes of a buffer. */
  function UpToNul(s: string): (r: string)
    ensures r <= s && (r == s <==> '\0' !in s)
    ensures '\0' !in r && (r != s ==> s[|r|] == '\0')
  {
    if s == "" || s[0] == NUL then "" else [s[0]] + UpToNul(s[1..])
  }

  function Collected(out: string): string
    decreases |out|
  {
    if out == "" then ""
    else
      var n := Taken(out, BUFFER_SIZE - 1);
      UpToNul(out[..n]) + Collected(out[n..])
  }

  /** `exec_cmd` on a pipe that delivers `out`; None when `popen` fails. */
  method ExecCmd(piped: bool, out: string) returns (r: Option<string>)
    ensures r == if piped then Some(Collected(out)) else None
  {
    if !piped {
      return None;
    }
    var result, rest := "", out;
    while rest != ""
      invariant result + Collected(rest) == Collected(out)
      decreases |rest|
    {
      var n := Taken(rest, BUFFER_SIZE - 1);
      var chunk := UpToNul(rest[..n]);
      Associate(result, chunk, Collected(rest[n..]));
      result := result + chunk;
      rest := rest[n..];
    }
    assert result + "" == result;
    return Some(result);
  }

  lemma Associate(a: string, b: string, c: string)
    ensures (a + b) + c == a + (b + c)
  {
  }

  /** The output is taken line by line, and a longer line in pieces of 127 characters; of each the caller gets what
      stands before the first NUL. */
  lemma CollectedByLines(piece: string, rest: string)
    requires piece != "" && |piece| <= 127 && '\n' !in piece[..|piece| - 1]
    requires piece[|piece| - 1] == '\n' || |piece| == 127 || rest == ""
    ensures Collected(piece + rest) == UpToNul(piece) + Collected(rest)
  {
    var out := piece + rest;
    var n := Taken(out, BUFFER_SIZE - 1);
    forall k | 0 <= k < |piece| - 1 ensures out[k] != '\n' {
      assert out[k] == piece[..|piece| - 1][k];
    }
    assert out[|piece| - 1] == piece[|piece| - 1];
    assert n == |piece|;
    assert out[..n] == piece && out[n..] == rest;
  }

  /** The caller gets the whole output exactly when it holds no NUL. */
  lemma {:induction false} CollectsAllExactly(out: string)
    ensures |Collected(out)| <= |out| && (Collected(out) == out <==> '\0' !in out)
    decreases |out|
  {
    if out != "" {
      var n := Taken(out, BUFFER_SIZE - 1);
      var a, b := out[..n], out[n..];
      assert out == a + b;
      CollectsAllExactly(b);
      assert NUL in out <==> NUL in a || NUL in b;
      if Collected(out) == out {
        assert |UpToNul(a)| == |a|;
        assert Collected(b) == Collected(out)[n..] == b;
      }
    }
  }

  // ------------------------------------------------------------------------
  // file_sha256
  // ------------------------------------------------------------------------

  const CHUNK: nat := 65536

  /** The digest library during one call: which of its operations succeed, the `k`-th update among
      them, and the digest function. */
  datatype Library = Library(context: bool, init: bool, update: nat -> bool, final: bool, hash: seq<Byte> -> seq<Byte>)

  datatype Fault = OpenFault | ContextFault | InitFault | UpdateFault | ReadFault | FinalFault

  datatype Hashed = Text(text: string) | Thrown(fault: Fault)

  /** The first `n` updates succeed. */
  predicate Updates(lib: Library, n: nat) {
    forall k :: 0 <= k < n ==> lib.update(k)
  }

  /** The hash of a file whose reads fail from byte `bad` on, if at all: the digest is fed exactly its
      bytes, in one update more than it has full chunks, and each way to fail has its own exception.
      `held` is the number of digest contexts left allocated. */
  method FileSha256(readable: bool, file: seq<Byte>, bad: Option<nat>, lib: Library)
    returns (r: Hashed, ghost held: int)
    ensures held == 0
    ensures r == Thrown(OpenFault) <==> !readable
    ensures r == Thrown(ContextFault) <==> readable && !lib.context
    ensures r == Thrown(InitFault) <==> readable && lib.context && !lib.init
    ensures var started, broken := readable && lib.context && lib.init, bad.Some? && bad.value < |file|;
            && (r == Thrown(ReadFault) <==> started && broken && Updates(lib, bad.value / 0x1_0000))
            && (r == Thrown(FinalFault) <==> started && !broken && Updates(lib, |file| / 0x1_0000 + 1) && !lib.final)
            && (r.Text? <==> started && !broken && Updates(lib, |file| / 0x1_0000 + 1) && lib.final)
    ensures r.Text? ==> r.text == HexText(lib.hash(file))
  {
    held := 0;
    if !readable {
      return Thrown(OpenFault), held;
    }
    if !lib.context {
      return Thrown(ContextFault), held;
    }
    held := 1;
    if !lib.init {
      held := held - 1;
      return Thrown(InitFault), held;
    }
    var fed: seq<Byte>, at, k := [], 0, 0;
    var eof, fail := false, false;
    while !fail
      invariant 0 <= at <= |file| && at == 0x1_0000 * k && fed == file[..at] && held == 1
      invariant !(bad.Some? && bad.value < at) && Updates(lib, k)
      invariant eof ==> fail && |file| - at < CHUNK && !(bad.Some? && bad.value < |file|)
      invariant fail && !eof ==> bad.Some? && bad.value < |file| && bad.value < at + CHUNK
      decreases if fail then 0 else 1, |file| - at
    {
      var upTo := if at + CHUNK <= |file| then at + CHUNK else |file|;
      if bad.Some? && bad.value < upTo {
        fail := true;
      } else if at + CHUNK <= |file| {
        if !lib.update(k) {
          held := held - 1;
          assert bad.Some? ==> bad.value / 0x1_0000 > k;
          return Thrown(UpdateFault), held;
        }
        fed := fed + file[at..upTo];
        assert file[..at] + file[at..upTo] == file[..upTo];
        at, k := upTo, k + 1;
      } else {
        fail, eof := true, true;
      }
    }
    if !eof {
      held := held - 1;
      return Thrown(ReadFault), held;
    }
    assert |file| / 0x1_0000 == k;
    if !lib.update(k) {
      held := held - 1;
      return Thrown(UpdateFault), held;
    }
    fed := fed + file[at..];
    assert file[..at] + file[at..] == file;
    if !lib.final {
      held := held - 1;
      return Thrown(FinalFault), held;
    }
    var hash := lib.hash(fed);
    held := held - 1;
    var text := Print(hash);
    return Text(text), held;
  }

  method Print(hash: seq<Byte>) returns (text: string)
    ensures text == HexText(hash)
  {
    text := "";
    for i := 0 to |hash|
      invariant text == HexText(hash[..i])
    {
      assert hash[..i + 1][..i] == hash[..i];
      text := text + [HexDigit(hash[i] / 16), HexDigit(hash[i] % 16)];
    }
    assert hash[..|hash|] == hash;
  }

  /** Two digits for every byte, padded with a zero. */
  function HexText(bytes: seq<Byte>): string {
    if bytes == [] then ""
    else
      var last := bytes[|bytes| - 1];
      HexText(bytes[..|bytes| - 1]) + [HexDigit(last / 16), HexDigit(last % 16)]
  }

  function ParseHex(t: string): Option<seq<Byte>> {
    if t == "" then Some([])
    else if |t| == 1 then None
    else
      var high, low, front := t[|t| - 2], t[|t| - 1], ParseHex(t[..|t| - 2]);
      if !IsHex(high) || !IsHex(low) || front.None? then None
      else Some(front.value + [16 * HexValue(high) + HexValue(low)])
  }

  lemma ByteReadsBack(front: seq<Byte>, text: string, b: Byte)
    requires ParseHex(text) == Some(front)
    ensures ParseHex(text + [HexDigit(b / 16), HexDigit(b % 16)]) == Some(front + [b])
  {
    var t := text + [HexDigit(b / 16), HexDigit(b % 16)];
    assert t[..|t| - 2] == text && t[|t| - 2] == HexDigit(b / 16) && t[|t| - 1] == HexDigit(b % 16);
  }

  /** Fixed-width printing is undone by a fixed-width parser, for every sequence of bytes. */
  lemma {:induction false} ParseUndoesHexText(bytes: seq<Byte>)
    ensures |HexText(bytes)| == 2 * |bytes| && ParseHex(HexText(bytes)) == Some(bytes)
  {
    hide HexDigit, ParseHex;
    if bytes == [] {
      EmptyReadsBack();
    } else {
      var init, last := bytes[..|bytes| - 1], bytes[|bytes| - 1];
      ParseUndoesHexText(init);
      ByteReadsBack(init, HexText(init), last);
      assert init + [last] == bytes;
    }
  }

  lemma EmptyReadsBack()
    ensures ParseHex("") == Some([])
  {
  }

  predicate LowerHex(text: string) {
    forall c <- text :: '0' <= c <= '9' || 'a' <= c <= 'f'
  }

  /** The text printed for some bytes is the one that parses back to them and has no capital letter. */
  lemma HexTextExactly(bytes: seq<Byte>, text: string)
    ensures text == HexText(bytes) <==> ParseHex(text) == Some(bytes) && LowerHex(text)
  {
    ParseUndoesHexText(bytes);
    HexTextIsLower(bytes);
    hide ParseHex, HexText, LowerHex;
    if ParseHex(text) == Some(bytes) && LowerHex(text) {
      HexTextUndoesParse(text);
    }
  }

  lemma {:induction false} HexTextUndoesParse(text: string)
    requires ParseHex(text).Some? && LowerHex(text)
    ensures HexText(ParseHex(text).value) == text
    decreases |text|
  {
    if text != "" {
      var front, high, low := text[..|text| - 2], text[|text| - 2], text[|text| - 1];
      assert high in text && low in text && forall c <- front :: c in text;
      assert LowerHex(front) && LowerHex([high, low]);
      TwoDigitsOf(high, low);
      ParseLast(text);
      hide *;
      assert text == front + [high, low];
      HexTextUndoesParse(front);
      HexTextLast(ParseHex(front).value, 16 * HexValue(high) + HexValue(low));
    }
  }

  lemma ParseLast(text: string)
    requires text != "" && ParseHex(text).Some?
    ensures |text| >= 2 && IsHex(text[|text| - 2]) && IsHex(text[|text| - 1])
    ensures var front := ParseHex(text[..|text| - 2]);
            front.Some? &&
            ParseHex(text) == Some(front.value + [16 * HexValue(text[|text| - 2]) + HexValue(text[|text| - 1])])
  {
  }

  lemma HexTextLast(init: seq<Byte>, last: Byte)
    ensures HexText(init + [last]) == HexText(init) + [HexDigit(last / 16), HexDigit(last % 16)]
  {
    assert (init + [last])[..|init|] == init;
  }

  lemma TwoDigitsOf(high: char, low: char)
    requires LowerHex([high, low])
    ensures IsHex(high) && IsHex(low)
    ensures HexDigit((16 * HexValue(high) + HexValue(low)) / 16) == high
    ensures HexDigit((16 * HexValue(high) + HexValue(low)) % 16) == low
  {
    assert high in [high, low] && low in [high, low];
  }

  lemma {:induction false} HexTextIsLower(bytes: seq<Byte>)
    ensures LowerHex(HexText(bytes))
  {
    if bytes != [] {
      HexTextIsLower(bytes[..|bytes| - 1]);
    }
  }
}
