/** The byte buffer that `read` fills with inotify events, and how the event loop decodes it. */
module InotifyBuffer {
  import opened Basics
  import opened Monitor

  const HEADER: nat := 16  // sizeof(inotify_event): wd, mask, cookie and len, four bytes each

  /** An event as the kernel lays it out: the name is followed by NULs up to `len`, and an event about
      the watched directory itself has no name field at all. */
  datatype Raw = Raw(event: Event, cookie: nat, len: nat)

  predicate Fits(r: Raw) {
    && 0 <= r.event.wd < 0x8000_0000 && r.event.mask < 0x1_0000_0000
    && r.cookie < 0x1_0000_0000 && r.len < 0x1_0000_0000
    && (forall c <- r.event.name :: 0 < c as int < 256)
    && (|r.event.name| < r.len || (r.event.name == "" && r.len == 0))
  }

  function U32(n: nat): seq<Byte>
    requires n < 0x1_0000_0000
  {
    [n % 256, n / 256 % 256, n / 256 / 256 % 256, n / 256 / 256 / 256]
  }

  function ByteAt(name: string, i: nat): Byte
    requires i < |name| && forall c <- name :: 0 < c as int < 256
  {
    assert name[i] in name;
    name[i] as int
  }

  function NameBytes(name: string): seq<Byte>
    requires forall c <- name :: 0 < c as int < 256
  {
    seq<Byte>(|name|, (i: int) requires 0 <= i < |name| => ByteAt(name, i))
  }

  function Zeros(n: nat): seq<Byte> {
    seq(n, _ => 0)
  }

  function Header(r: Raw): seq<Byte>
    requires Fits(r)
  {
    U32(r.event.wd) + U32(r.event.mask) + U32(r.cookie) + U32(r.len)
  }

  function Bytes(r: Raw): seq<Byte>
    requires Fits(r)
  {
    Header(r) + NameBytes(r.event.name) + Zeros(r.len - |r.event.name|)
  }

  predicate AllFit(rs: seq<Raw>) {
    forall r <- rs :: Fits(r)
  }

  function AllBytes(rs: seq<Raw>): seq<Byte>
    requires AllFit(rs)
  {
    if rs == [] then [] else Bytes(rs[0]) + AllBytes(rs[1..])
  }

  function Events(rs: seq<Raw>): seq<Event> {
    seq(|rs|, i requires 0 <= i < |rs| => rs[i].event)
  }

  /** Where the fields are: little-endian in the four words of a header of 16 bytes, then the name, then NULs. */
  lemma Layout(r: Raw, k: nat)
    requires Fits(r) && k < 4
    ensures var b, base := Bytes(r), if k == 0 then 1 else if k == 1 then 0x100 else if k == 2 then 0x1_0000
                                     else 0x100_0000;
            && |b| == 16 + r.len
            && b[k] == r.event.wd / base % 0x100 && b[4 + k] == r.event.mask / base % 0x100
            && b[8 + k] == r.cookie / base % 0x100 && b[12 + k] == r.len / base % 0x100
    ensures forall i :: 0 <= i < r.len ==>
              Bytes(r)[16 + i] == if i < |r.event.name| then r.event.name[i] as int else 0
  {
    WordBytes(r.event.wd, k);
    WordBytes(r.event.mask, k);
    WordBytes(r.cookie, k);
    WordBytes(r.len, k);
    hide U32;
    assert |Header(r)| == 16;
  }

  lemma WordBytes(n: nat, k: nat)
    requires n < 0x1_0000_0000 && k < 4
    ensures |U32(n)| == 4
    ensures U32(n)[k] == n / (if k == 0 then 1 else if k == 1 then 0x100 else if k == 2 then 0x1_0000
                              else 0x100_0000) % 0x100
  {
    assert n / 256 / 256 == n / 0x1_0000 && n / 0x1_0000 / 256 == n / 0x100_0000;
  }

  // ------------------------------------------------------------------------
  // Reading the fields back
  // ------------------------------------------------------------------------

  function U32At(b: seq<Byte>, i: nat): nat
    requires i + 4 <= |b|
  {
    var b0: int, b1: int, b2: int, b3: int := b[i], b[i + 1], b[i + 2], b[i + 3];
    b0 + 256 * (b1 + 256 * (b2 + 256 * b3))
  }

  /** The same four bytes as a signed `int`. */
  function S32At(b: seq<Byte>, i: nat): int
    requires i + 4 <= |b|
  {
    var u := U32At(b, i);
    if u < 0x8000_0000 then u else u - 0x1_0000_0000
  }

  /** The C string at `i`: everything up to the next NUL, wherever that is. */
  function CString(b: seq<Byte>, i: nat): string
    requires i <= |b|
    decreases |b| - i
  {
    if i == |b| || b[i] == 0 then "" else [b[i] as char] + CString(b, i + 1)
  }

  lemma HeaderAt(r: Raw, tail: seq<Byte>)
    requires Fits(r)
    ensures var b := Bytes(r) + tail;
            && |Bytes(r)| == HEADER + r.len
            && S32At(b, 0) == r.event.wd && U32At(b, 4) == r.event.mask && U32At(b, 12) == r.len
  {
    var h, b := Header(r), Bytes(r) + tail;
    assert forall i :: 0 <= i < HEADER ==> b[i] == h[i];
  }

  lemma {:induction false} CStringAt(b: seq<Byte>, i: nat, name: string)
    requires i + |name| <= |b|
    requires forall c <- name :: 0 < c as int < 256
    requires forall k :: 0 <= k < |name| ==> b[i + k] == name[k] as int
    requires i + |name| == |b| || b[i + |name|] == 0
    ensures CString(b, i) == name
    decreases |name|
  {
    if name != "" {
      assert b[i] == name[0] as int && name[0] in name && name == [name[0]] + name[1..];
      assert forall c <- name[1..] :: c in name;
      forall k | 0 <= k < |name| - 1 ensures b[i + 1 + k] == name[1..][k] as int {
        assert b[i + (1 + k)] == name[1 + k] as int;
      }
      CStringAt(b, i + 1, name[1..]);
    }
  }

  /** The loop reads the event's own name exactly when the event has a name field, or the byte that
      happens to follow its header is a NUL; otherwise it takes bytes that belong to something else. */
  lemma NameReadExactly(r: Raw, tail: seq<Byte>)
    requires Fits(r)
    ensures CString(Bytes(r) + tail, HEADER) == r.event.name <==> r.len > 0 || tail == [] || tail[0] == 0
  {
    var b := Bytes(r) + tail;
    HeaderAt(r, tail);
    if r.len > 0 {
      assert forall k :: 0 <= k < |r.event.name| ==> b[HEADER + k] == NameBytes(r.event.name)[k];
      CStringAt(b, HEADER, r.event.name);
    } else if tail != [] {
      assert b[HEADER] == tail[0];
    }
  }

  /** For every event of a buffer that is followed by the bytes `after`, the name read is its own. */
  predicate NamesReadRight(rs: seq<Raw>, after: seq<Byte>) {
    && AllFit(rs)
    && (rs == [] || (CString(Bytes(rs[0]) + (AllBytes(rs[1..]) + after), HEADER) == rs[0].event.name
                     && NamesReadRight(rs[1..], after)))
  }

  /** Each event has a name field, or a NUL happens to follow its header. */
  predicate NulsFollow(rs: seq<Raw>, after: seq<Byte>)
    requires AllFit(rs)
  {
    rs == [] ||
    (var tail := AllBytes(rs[1..]) + after;
     (rs[0].len > 0 || tail == [] || tail[0] == 0) && NulsFollow(rs[1..], after))
  }

  lemma {:induction false} NamesReadRightExactly(rs: seq<Raw>, after: seq<Byte>)
    requires AllFit(rs)
    ensures NamesReadRight(rs, after) <==> NulsFollow(rs, after)
  {
    if rs != [] {
      NamesReadRightExactly(rs[1..], after);
      NameReadExactly(rs[0], AllBytes(rs[1..]) + after);
    }
  }

  /** A directory removed while watched reports itself with no name; if the next event in the buffer
      is for descriptor 47, the loop reads that descriptor's first byte as the name "/". */
  lemma NamelessEventReadsNextDescriptor(next: Raw, gone: Wd)
    requires Fits(next) && next.event.wd == 47 && 0 <= gone < 0x8000_0000
    ensures var r := Raw(Event(gone, IN_IGNORED, ""), 0, 0);
            Fits(r) && CString(AllBytes([r, next]), HEADER) == "/"
  {
    var r := Raw(Event(gone, IN_IGNORED, ""), 0, 0);
    assert [r, next][1..] == [next] && [next][1..] == [];
    var b := AllBytes([r, next]);
    assert AllBytes([next]) == Bytes(next) + AllBytes([]);
    assert b == Bytes(r) + Bytes(next);
    HeaderAt(r, Bytes(next));
    assert U32(47) == [47, 0, 0, 0];
    assert b[HEADER] == Bytes(next)[0] == 47 && b[HEADER + 1] == Bytes(next)[1] == 0;
    CStringAt(b, HEADER, "/");
  }
}
