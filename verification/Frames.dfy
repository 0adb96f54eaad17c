/** `_iter_jsonl_frames`: finding and decoding zstd frames in a payload with missing pieces. */
module Frames {
  import opened Options
  import opened Bytes

  /** Magic_Number of section 3.1.1 of RFC 8878, little-endian. */
  const MAGIC: seq<Byte> := [0x28, 0xB5, 0x2F, 0xFD]

  // ---- The streaming decoder ------------------------------------------------------

  /** What a decoder knows after being fed some bytes. */
  datatype Decoding = NeedMore(out: seq<Byte>) | Corrupt | Done(consumed: nat, out: seq<Byte>)

  type Decoder = seq<Byte> -> Decoding

  /**
    A streaming decoder: its verdict depends on the bytes and not on the chunks, a verdict once reached
    stays, a finished frame is as long as what was consumed, and output only ever grows.
    */
  ghost predicate Streaming(decode: Decoder) {
    && decode([]) == NeedMore([])
    && (forall s, t :: decode(s).Done? ==> decode(s + t) == decode(s))
    && (forall s, t :: decode(s).Corrupt? ==> decode(s + t).Corrupt?)
    && (forall s :: decode(s).Done? ==> |MAGIC| <= decode(s).consumed <= |s|)
    && (forall s :: decode(s).Done? ==> decode(s[..decode(s).consumed]) == decode(s))
    && (forall s, t :: decode(s).NeedMore? && !decode(s + t).Corrupt? ==> decode(s).out <= decode(s + t).out)
  }

  /** Nothing shorter than an unfinished input is a finished frame. */
  lemma UnfinishedPrefixes(decode: Decoder, s: seq<Byte>)
    requires Streaming(decode) && decode(s).NeedMore?
    ensures forall n :: 0 <= n <= |s| ==> !decode(s[..n]).Done?
  {
    forall n | 0 <= n <= |s| ensures !decode(s[..n]).Done? {
      assert s == s[..n] + s[n..];
    }
  }

  /** What the laws say about feeding `t` after `s`. */
  lemma FeedMore(decode: Decoder, s: seq<Byte>, t: seq<Byte>)
    requires Streaming(decode) && decode(s).NeedMore?
    ensures decode(s + t).Done? ==> |s| < decode(s + t).consumed <= |s + t|
    ensures !decode(s + t).Corrupt? ==> decode(s).out <= decode(s + t).out
  {
    UnfinishedPrefixes(decode, s);
    assert forall n :: 0 <= n <= |s| ==> (s + t)[..n] == s[..n];
  }

  /** The `decompressobj`: it remembers what it was fed. */
  class DecompressObj {
    const decode: Decoder
    var fed: seq<Byte>
    var unused: seq<Byte>
    var eof: bool

    constructor (decode: Decoder)
      ensures this.decode == decode && fed == [] && !eof
    {
      this.decode := decode;
      fed, unused, eof := [], [], false;
    }

    /** New output for one more chunk, or `None` for an exception. */
    method Decompress(chunk: seq<Byte>) returns (out: Option<seq<Byte>>)
      requires Streaming(decode) && decode(fed).NeedMore?
      modifies this
      ensures fed == old(fed) + chunk
      ensures out.None? <==> decode(fed).Corrupt?
      ensures out.Some? ==> decode(old(fed)).out + out.value == decode(fed).out
      ensures eof <==> decode(fed).Done?
      ensures eof ==> |unused| == |fed| - decode(fed).consumed && |unused| <= |chunk|
    {
      hide Streaming;
      FeedMore(decode, fed, chunk);
      var sent := |decode(fed).out|;
      fed := fed + chunk;
      var now := decode(fed);
      eof := now.Done?;
      match now {
        case Corrupt =>
          out := None;
        case NeedMore(all) =>
          out := Some(all[sent..]);
        case Done(consumed, all) =>
          unused := fed[consumed..];
          out := Some(all[sent..]);
      }
    }
  }

  // ---- The scan as a function -------------------------------------------------------

  predicate MagicAt(data: seq<Byte>, q: nat) {
    q + 4 <= |data| && data[q] == 0x28 && data[q + 1] == 0xB5 && data[q + 2] == 0x2F && data[q + 3] == 0xFD
  }

  /** First magic that lies wholly inside `data[p..limit]`. */
  function Find(data: seq<Byte>, p: nat, limit: nat): (q: Option<nat>)
    requires limit <= |data|
    ensures q.Some? ==> p <= q.value && q.value + 4 <= limit && MagicAt(data, q.value)
    ensures q.Some? ==> forall i :: p <= i < q.value ==> !MagicAt(data, i)
    ensures q.None? ==> forall i :: p <= i && i + 4 <= limit ==> !MagicAt(data, i)
    decreases limit - p
  {
    if p + 4 > limit then None
    else if MagicAt(data, p) then Some(p)
    else Find(data, p + 1, limit)
  }

  /** `scan.find(_ZSTD_MAGIC)` on a window is the same search on the file. */
  lemma FindInWindow(data: seq<Byte>, p: nat, limit: nat)
    requires p <= limit <= |data|
    ensures var w := Find(data[p..limit], 0, limit - p);
            Find(data, p, limit) == if w.Some? then Some(p + w.value) else None
  {
    var scan := data[p..limit];
    forall i | 0 <= i && i + 4 <= |scan| ensures MagicAt(scan, i) <==> MagicAt(data, p + i) {
    }
    var w, f := Find(scan, 0, limit - p), Find(data, p, limit);
    if f.Some? { assert MagicAt(scan, f.value - p); }
    if w.Some? { assert MagicAt(data, p + w.value); }
  }

  /** A frame taken over as a whole. */
  datatype Commit = Commit(start: nat, length: nat)

  function WindowEnd(data: seq<Byte>, p: nat, chunk: nat): nat {
    if p + chunk <= |data| then p + chunk else |data|
  }

  /** The frames that the scanner commits from position `p` on. */
  function Scan(decode: Decoder, data: seq<Byte>, p: nat, chunk: nat): seq<Commit>
    requires chunk > 0
    decreases |data| - p
  {
    if p >= |data| then []
    else
      var limit := WindowEnd(data, p, chunk);
      var magic := Find(data, p, limit);
      if magic.None? then Scan(decode, data, limit, chunk)
      else
        var d := decode(data[magic.value..]);
        if d.Done? && d.consumed > 0
        then [Commit(magic.value, d.consumed)] + Scan(decode, data, magic.value + d.consumed, chunk)
        else Scan(decode, data, magic.value + 1, chunk)
  }

  /** One round of the scan, by what the window shows. */
  lemma ScanRound(decode: Decoder, data: seq<Byte>, p: nat, chunk: nat, limit: nat, magic: Option<nat>)
    requires chunk > 0 && p < |data| && limit == WindowEnd(data, p, chunk) && magic == Find(data, p, limit)
    ensures magic.None? ==> Scan(decode, data, p, chunk) == Scan(decode, data, limit, chunk)
    ensures magic.Some? && !decode(data[magic.value..]).Done? ==>
      Scan(decode, data, p, chunk) == Scan(decode, data, magic.value + 1, chunk)
    ensures magic.Some? && decode(data[magic.value..]).Done? && decode(data[magic.value..]).consumed > 0 ==>
      var n := decode(data[magic.value..]).consumed;
      Scan(decode, data, p, chunk) == [Commit(magic.value, n)] + Scan(decode, data, magic.value + n, chunk)
  {
    hide MagicAt, Find;
  }

  /** UTF-8 decoding, line splitting and stripping, for the decompressed bytes of one frame. */
  type LineSplitter = seq<Byte> -> seq<string>

  predicate Decodes(decode: Decoder, data: seq<Byte>, c: Commit) {
    c.start <= |data| && var d := decode(data[c.start..]); d.Done? && d.consumed == c.length
  }

  /** The decompressed bytes of the frame at `start`. */
  function TextAt(decode: Decoder, data: seq<Byte>, start: nat): seq<Byte> {
    if start > |data| then []
    else
      var d := decode(data[start..]);
      if d.Done? then d.out else []
  }

  lemma TextOfFrame(decode: Decoder, data: seq<Byte>, start: nat)
    requires start <= |data| && decode(data[start..]).Done?
    ensures TextAt(decode, data, start) == decode(data[start..]).out
  {
  }

  function LinesOf(decode: Decoder, split: LineSplitter, data: seq<Byte>, commits: seq<Commit>): seq<string> {
    if commits == [] then []
    else
      LinesOf(decode, split, data, commits[..|commits| - 1])
      + split(TextAt(decode, data, commits[|commits| - 1].start))
  }

  lemma LinesOfNext(decode: Decoder, split: LineSplitter, data: seq<Byte>, commits: seq<Commit>, c: Commit)
    ensures LinesOf(decode, split, data, commits + [c])
         == LinesOf(decode, split, data, commits) + split(TextAt(decode, data, c.start))
  {
    assert (commits + [c])[..|commits|] == commits;
  }

  /** What is passed to `on_bytes` after each frame. */
  function Ends(commits: seq<Commit>): seq<nat> {
    seq(|commits|, i requires 0 <= i < |commits| => commits[i].start + commits[i].length)
  }

  // ---- The scanner itself -----------------------------------------------------------

  /** The inner loop: feeds one frame, chunk by chunk, until it ends, fails or the file ends. */
  method DecodeFrame(decode: Decoder, data: seq<Byte>, start: nat, chunk: nat)
      returns (eof: bool, consumed: nat, text: seq<Byte>)
    requires Streaming(decode) && chunk > 0 && start <= |data|
    ensures eof <==> decode(data[start..]).Done?
    ensures eof ==> decode(data[start..]) == Done(consumed, text)
  {
    hide Streaming;
    var dobj := new DecompressObj(decode);
    var feed := start;
    eof, consumed, text := false, 0, [];
    NothingFed(decode);
    assert data[start..start] == [];
    while feed < |data|
      invariant start <= feed <= |data|
      invariant dobj.decode == decode && dobj.fed == data[start..feed] && decode(dobj.fed) == NeedMore(text)
      decreases |data| - feed
    {
      var limit := WindowEnd(data, feed, chunk);
      var piece := data[feed..limit];
      assert dobj.fed + piece == data[start..limit];
      assert data[start..] == data[start..limit] + data[limit..];
      Settled(decode, data[start..limit], data[limit..]);
      var out := dobj.Decompress(piece);
      if out.None? {
        return false, 0, [];
      }
      text := text + out.value;
      if dobj.eof {
        consumed := (feed - start) + (|piece| - |dobj.unused|);
        eof := true;
        return;
      }
      feed := limit;
    }
    assert data[start..feed] == data[start..];
  }

  lemma NothingFed(decode: Decoder)
    requires Streaming(decode)
    ensures decode([]) == NeedMore([])
  {
  }

  lemma Settled(decode: Decoder, s: seq<Byte>, t: seq<Byte>)
    requires Streaming(decode)
    ensures decode(s).Done? ==> decode(s + t) == decode(s)
    ensures decode(s).Corrupt? ==> decode(s + t).Corrupt?
  {
  }

  /** One round of the outer loop: the frame it commits, if any, and where it goes on. */
  method ScanOnce(decode: Decoder, data: seq<Byte>, pos: nat, chunk: nat)
      returns (commit: Option<Commit>, text: seq<Byte>, next: nat)
    requires Streaming(decode) && chunk > 0 && pos < |data|
    ensures pos < next <= |data|
    ensures commit.None? ==> Scan(decode, data, pos, chunk) == Scan(decode, data, next, chunk)
    ensures commit.Some? ==>
      && Scan(decode, data, pos, chunk) == [commit.value] + Scan(decode, data, next, chunk)
      && Decodes(decode, data, commit.value) && text == TextAt(decode, data, commit.value.start)
      && next == commit.value.start + commit.value.length
  {
    hide Streaming, MagicAt, TextAt, Find, Scan;
    var limit := WindowEnd(data, pos, chunk);
    var scan := data[pos..limit];
    var found := Find(scan, 0, |scan|);
    FindInWindow(data, pos, limit);
    ScanRound(decode, data, pos, chunk, limit, Find(data, pos, limit));
    if found.None? {
      return None, [], pos + |scan|;
    }
    var start := pos + found.value;
    var eof, consumed, out := DecodeFrame(decode, data, start, chunk);
    if !eof {
      return None, [], start + 1;
    }
    FrameLength(decode, data[start..]);
    TextOfFrame(decode, data, start);
    return Some(Commit(start, consumed)), out, start + consumed;
  }

  /** `_iter_jsonl_frames`; `reported` are the positions passed to `on_bytes`. */
  method ScanFrames(decode: Decoder, split: LineSplitter, data: seq<Byte>, chunk: nat)
      returns (lines: seq<string>, reported: seq<nat>)
    requires Streaming(decode) && chunk > 0
    ensures lines == LinesOf(decode, split, data, Scan(decode, data, 0, chunk))
    ensures |reported| == |Scan(decode, data, 0, chunk)|
    ensures forall i :: 0 <= i < |reported| ==>
      var c := Scan(decode, data, 0, chunk)[i]; reported[i] == c.start + c.length
  {
    hide Streaming, Decodes, TextAt, Scan;
    var pos := 0;
    lines, reported := [], [];
    ghost var commits := [];
    while pos < |data|
      invariant commits + Scan(decode, data, pos, chunk) == Scan(decode, data, 0, chunk)
      invariant lines == LinesOf(decode, split, data, commits) && reported == Ends(commits)
      decreases |data| - pos
    {
      var commit, text, next := ScanOnce(decode, data, pos, chunk);
      if commit.Some? {
        LinesOfNext(decode, split, data, commits, commit.value);
        ghost var rest := Scan(decode, data, next, chunk);
        assert commits + ([commit.value] + rest) == (commits + [commit.value]) + rest;
        lines := lines + split(text);
        reported := reported + [next];
        commits := commits + [commit.value];
      }
      pos := next;
    }
    ScanAtEnd(decode, data, pos, chunk);
    assert commits == Scan(decode, data, 0, chunk);
  }

  lemma ScanAtEnd(decode: Decoder, data: seq<Byte>, p: nat, chunk: nat)
    requires chunk > 0 && p >= |data|
    ensures Scan(decode, data, p, chunk) == []
  {
  }

  lemma FrameLength(decode: Decoder, s: seq<Byte>)
    requires Streaming(decode)
    ensures decode(s).Done? ==> 4 <= decode(s).consumed <= |s|
  {
  }
}
