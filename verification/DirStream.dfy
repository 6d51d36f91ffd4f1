/** The directory stream of dirent-win.h: one entry of lookahead over FindFirstFile/FindNextFile. */
module DirStream {
  import opened Basics

  /** WIN32_FIND_DATAW: names are UTF-16 code units. */
  datatype FindData = FindData(fileName: seq<nat>, alternateName: seq<nat>, attributes: nat)

  // ------------------------------------------------------------------------
  // The stream as a value
  // ------------------------------------------------------------------------

  /** `cursor` is how many entries the open search handle has delivered; `cached` says that the last
      of them, in `data`, has not been returned yet. */
  datatype Stream = Stream(cached: bool, data: FindData, cursor: Option<nat>)

  /** `dirent_first`; `ok` is whether the system can open the search. */
  function First(entries: seq<FindData>, s: Stream, ok: bool): Stream {
    if ok && entries != [] then Stream(true, entries[0], Some(1)) else Stream(false, s.data, None)
  }

  /** `dirent_next`; `ok` is whether the system can deliver another entry, if there is one. */
  function Next(entries: seq<FindData>, s: Stream, ok: bool): (Stream, Option<FindData>) {
    if s.cached then (s.(cached := false), Some(s.data))
    else if s.cursor.Some? then
      if ok && s.cursor.value < |entries| then
        var d := entries[s.cursor.value];
        (Stream(false, d, Some(s.cursor.value + 1)), Some(d))
      else (s.(cursor := None), None)
    else (s, None)
  }

  /** The lookahead is held only while the handle is open, and is the first entry. */
  predicate Sound(entries: seq<FindData>, s: Stream) {
    && (s.cursor.Some? ==> 1 <= s.cursor.value <= |entries|)
    && (s.cached ==> s.cursor == Some(1) && s.data == entries[0])
  }

  // ------------------------------------------------------------------------
  // Any interleaving of reads and rewinds
  // ------------------------------------------------------------------------

  datatype Command = Read(ok: bool) | Rewind(ok: bool)

  /** The stream and what the reads since the last open or rewind returned. */
  datatype Session = Session(stream: Stream, got: seq<Option<FindData>>)

  function Perform(entries: seq<FindData>, x: Session, c: Command): Session {
    match c
    case Read(ok) => var (s, d) := Next(entries, x.stream, ok); Session(s, x.got + [d])
    case Rewind(ok) => Session(First(entries, x.stream, ok), [])
  }

  function Play(entries: seq<FindData>, x: Session, cs: seq<Command>): Session {
    if cs == [] then x
    else Perform(entries, Play(entries, x, cs[..|cs| - 1]), cs[|cs| - 1])
  }

  /** The first `k` entries, and after them nothing any more. */
  predicate PrefixThenEnd(entries: seq<FindData>, got: seq<Option<FindData>>, k: nat) {
    && k <= |entries| && k <= |got|
    && (forall i :: 0 <= i < k ==> got[i] == Some(entries[i]))
    && (forall i :: k <= i < |got| ==> got[i] == None)
  }

  /** How far a session has come: where the stream stands agrees with what was returned. */
  ghost predicate Agrees(entries: seq<FindData>, x: Session, k: nat) {
    && Sound(entries, x.stream)
    && PrefixThenEnd(entries, x.got, k)
    && (x.stream.cached ==> x.got == [])
    && (x.stream.cursor.Some? && !x.stream.cached ==> k == x.stream.cursor.value == |x.got|)
  }

  /** The system has not failed since the last rewind, that one included. */
  predicate NoFaults(cs: seq<Command>) {
    cs == [] || (cs[|cs| - 1].ok && (cs[|cs| - 1].Rewind? || NoFaults(cs[..|cs| - 1])))
  }

  lemma {:induction false} SessionAgrees(entries: seq<FindData>, s: Stream, cs: seq<Command>) returns (k: nat)
    requires entries != []
    ensures var x := Play(entries, Session(First(entries, s, true), []), cs);
            && Agrees(entries, x, k)
            && (NoFaults(cs) && x.stream.cursor.None? ==> k == |entries|)
    decreases |cs|
  {
    if cs == [] {
      return 0;
    }
    var before, c := cs[..|cs| - 1], cs[|cs| - 1];
    var j := SessionAgrees(entries, s, before);
    var x := Play(entries, Session(First(entries, s, true), []), before);
    match c
    case Read(ok) => k := if Next(entries, x.stream, ok).1.Some? then j + 1 else j;
    case Rewind(ok) => k := 0;
  }

  /** Whatever reads and rewinds were done since the stream was opened, the reads since the last rewind
      return the directory's entries from the first, in order, none twice and none skipped, and then the
      end for ever. If the system did not fail meanwhile, the end comes only after the last entry. */
  lemma StreamRefines(entries: seq<FindData>, s: Stream, cs: seq<Command>)
    requires entries != []
    ensures var x := Play(entries, Session(First(entries, s, true), []), cs);
            && Sound(entries, x.stream)
            && exists k :: PrefixThenEnd(entries, x.got, k) && (NoFaults(cs) && None in x.got ==> k == |entries|)
  {
    var k := SessionAgrees(entries, s, cs);
    var x := Play(entries, Session(First(entries, s, true), []), cs);
    if x.stream.cursor.Some? && None in x.got {
      assert x.got == [] || k == |x.got|;
    }
    assert PrefixThenEnd(entries, x.got, k);
  }
}
