/** What the resilient scanner recovers from a payload of intact frames and damaged gaps. */
module FrameRecovery {
  import opened Options
  import opened Bytes
  import opened Frames

  // ---- Any bytes at all ---------------------------------------------------------

  /** Committed frames are decodable, disjoint and increasing, and lie inside the file after `p`. */
  ghost predicate Ordered(decode: Decoder, data: seq<Byte>, p: nat, commits: seq<Commit>) {
    && (forall i :: 0 <= i < |commits| ==>
          && p <= commits[i].start && commits[i].start + commits[i].length <= |data|
          && MagicAt(data, commits[i].start) && Decodes(decode, data, commits[i]))
    && (forall i, j :: 0 <= i < j < |commits| ==> commits[i].start + commits[i].length <= commits[j].start)
  }

  lemma OrderedCons(decode: Decoder, data: seq<Byte>, p: nat, c: Commit, rest: seq<Commit>)
    requires p <= c.start && c.start + c.length <= |data| && MagicAt(data, c.start) && Decodes(decode, data, c)
    requires Ordered(decode, data, c.start + c.length, rest)
    ensures Ordered(decode, data, p, [c] + rest)
  {
    hide MagicAt, Decodes;
    var all := [c] + rest;
    assert all[0] == c && forall i :: 1 <= i < |all| ==> all[i] == rest[i - 1];
  }

  lemma OrderedWiden(decode: Decoder, data: seq<Byte>, p: nat, q: nat, commits: seq<Commit>)
    requires p <= q && Ordered(decode, data, q, commits)
    ensures Ordered(decode, data, p, commits)
  {
  }

  lemma OrderedNil(decode: Decoder, data: seq<Byte>, p: nat)
    ensures Ordered(decode, data, p, [])
  {
  }

  lemma {:induction false} ScanIsSound(decode: Decoder, data: seq<Byte>, p: nat, chunk: nat)
    requires Streaming(decode) && chunk > 0
    ensures Ordered(decode, data, p, Scan(decode, data, p, chunk))
    decreases |data| - p
  {
    hide MagicAt, Streaming, Ordered;
    OrderedNil(decode, data, p);
    if p < |data| {
      var limit := WindowEnd(data, p, chunk);
      var magic := Find(data, p, limit);
      if magic.None? {
        ScanIsSound(decode, data, limit, chunk);
        OrderedWiden(decode, data, p, limit, Scan(decode, data, limit, chunk));
      } else {
        var d := decode(data[magic.value..]);
        FrameLength(decode, data[magic.value..]);
        if d.Done? {
          var next := magic.value + d.consumed;
          ScanIsSound(decode, data, next, chunk);
          OrderedCons(decode, data, p, Commit(magic.value, d.consumed), Scan(decode, data, next, chunk));
        } else {
          ScanIsSound(decode, data, magic.value + 1, chunk);
          OrderedWiden(decode, data, p, magic.value + 1, Scan(decode, data, magic.value + 1, chunk));
        }
      }
    }
  }

  // ---- Payloads with a known layout ------------------------------------------------

  /** A damaged gap, possibly empty, followed by an intact frame. */
  datatype Slot = Slot(gap: seq<Byte>, frame: seq<Byte>)

  function Payload(slots: seq<Slot>, tail: seq<Byte>): seq<Byte> {
    if slots == [] then tail else slots[0].gap + slots[0].frame + Payload(slots[1..], tail)
  }

  /** Where the intact frames are. */
  function FramesAt(p: nat, slots: seq<Slot>): seq<Commit>
    decreases slots
  {
    if slots == [] then []
    else
      var s := p + |slots[0].gap|;
      [Commit(s, |slots[0].frame|)] + FramesAt(s + |slots[0].frame|, slots[1..])
  }

  predicate Intact(decode: Decoder, frame: seq<Byte>) {
    MagicAt(frame, 0) && decode(frame).Done? && decode(frame).consumed == |frame|
  }

  /** No position in `[p, s)` starts a decodable frame. */
  ghost predicate Inert(decode: Decoder, data: seq<Byte>, p: nat, s: nat)
    requires s <= |data|
  {
    forall q :: p <= q < s && MagicAt(data, q) ==> !decode(data[q..]).Done?
  }

  /** Does a scan that starts at `p` notice the magic at `s`, or does a window edge cut it? */
  predicate Noticed(data: seq<Byte>, p: nat, s: nat, chunk: nat)
    requires chunk > 0 && p <= s <= |data|
    decreases s - p
  {
    var limit := WindowEnd(data, p, chunk);
    var magic := Find(data, p, limit);
    if magic.None? then p < limit <= s && Noticed(data, limit, s, chunk)
    else if magic.value < s then Noticed(data, magic.value + 1, s, chunk)
    else magic.value == s
  }

  lemma {:induction false} StartsAtLeast(decode: Decoder, data: seq<Byte>, p: nat, chunk: nat, c: Commit)
    requires Streaming(decode) && chunk > 0
    requires c.start < p
    ensures c !in Scan(decode, data, p, chunk)
  {
    ScanIsSound(decode, data, p, chunk);
  }

  /** Past a gap without decodable magic the scanner takes the next frame, or jumps over its start for good. */
  lemma {:induction false} ScanGap(decode: Decoder, data: seq<Byte>, p: nat, s: nat, chunk: nat)
    requires Streaming(decode) && chunk > 0 && p <= s <= |data|
    requires Inert(decode, data, p, s)
    requires MagicAt(data, s) && decode(data[s..]).Done?
    ensures var c := Commit(s, decode(data[s..]).consumed);
            if Noticed(data, p, s, chunk)
            then Scan(decode, data, p, chunk) == [c] + Scan(decode, data, s + c.length, chunk)
            else c !in Scan(decode, data, p, chunk)
    decreases s - p
  {
    hide Streaming, Scan;
    var limit := WindowEnd(data, p, chunk);
    var magic := Find(data, p, limit);
    var c := Commit(s, decode(data[s..]).consumed);
    FrameLength(decode, data[s..]);
    ScanRound(decode, data, p, chunk, limit, magic);
    if magic.None? {
      if limit <= s {
        ScanGap(decode, data, limit, s, chunk);
      } else {
        StartsAtLeast(decode, data, limit, chunk, c);
      }
    } else if magic.value < s {
      assert !decode(data[magic.value..]).Done?;
      ScanGap(decode, data, magic.value + 1, s, chunk);
    }
  }

  lemma {:induction false} ScanTail(decode: Decoder, data: seq<Byte>, p: nat, chunk: nat)
    requires Streaming(decode) && chunk > 0 && p <= |data| && Inert(decode, data, p, |data|)
    ensures Scan(decode, data, p, chunk) == []
    decreases |data| - p
  {
    if p < |data| {
      var limit := WindowEnd(data, p, chunk);
      var magic := Find(data, p, limit);
      if magic.None? {
        ScanTail(decode, data, limit, chunk);
      } else {
        assert !decode(data[magic.value..]).Done?;
        ScanTail(decode, data, magic.value + 1, chunk);
      }
    }
  }

  /** `data[p..]` is laid out as `slots` and `tail`, with intact frames and inert damage. */
  ghost predicate LaidOut(decode: Decoder, data: seq<Byte>, p: nat, slots: seq<Slot>, tail: seq<Byte>)
    decreases slots
  {
    && p <= |data| && data[p..] == Payload(slots, tail)
    && if slots == [] then Inert(decode, data, p, |data|)
       else
         var s := p + |slots[0].gap|;
         && Intact(decode, slots[0].frame)
         && s + |slots[0].frame| <= |data|
         && Inert(decode, data, p, s)
         && LaidOut(decode, data, s + |slots[0].frame|, slots[1..], tail)
  }

  /** Every frame's magic falls inside one scan window. */
  predicate AllNoticed(data: seq<Byte>, p: nat, slots: seq<Slot>, chunk: nat)
    requires chunk > 0
    decreases slots
  {
    slots == [] ||
    var s := p + |slots[0].gap|;
    s <= |data| && Noticed(data, p, s, chunk) && AllNoticed(data, s + |slots[0].frame|, slots[1..], chunk)
  }

  lemma FrameInPlace(decode: Decoder, data: seq<Byte>, p: nat, slots: seq<Slot>, tail: seq<Byte>)
    requires Streaming(decode) && slots != [] && LaidOut(decode, data, p, slots, tail)
    ensures var s := p + |slots[0].gap|;
            && s <= |data| && MagicAt(data, s)
            && decode(data[s..]) == decode(slots[0].frame) && decode(data[s..]).Done?
            && decode(data[s..]).consumed == |slots[0].frame|
  {
    hide Streaming, MagicAt, Inert;
    var s, frame := p + |slots[0].gap|, slots[0].frame;
    var rest := Payload(slots[1..], tail);
    assert slots[0].gap + frame + rest == slots[0].gap + (frame + rest);
    CutAway(data, p, slots[0].gap, frame + rest);
    hide LaidOut, Payload;
    MagicPrefix(frame, rest);
    MagicShift(data, s, 0);
    Settled(decode, frame, rest);
  }

  /**
    Recovery: the scanner commits exactly the intact frames, in order,
    if and only if no frame's magic is cut by a window edge.
    */
  lemma {:induction false} RecoversIff(decode: Decoder, data: seq<Byte>, p: nat, slots: seq<Slot>, tail: seq<Byte>, chunk: nat)
    requires Streaming(decode) && chunk > 0 && LaidOut(decode, data, p, slots, tail)
    ensures Scan(decode, data, p, chunk) == FramesAt(p, slots) <==> AllNoticed(data, p, slots, chunk)
    decreases |slots|
  {
    hide MagicAt, Inert, Streaming, Scan, Noticed, Payload, Intact;
    if slots == [] {
      ScanTail(decode, data, p, chunk);
    } else {
      var s := p + |slots[0].gap|;
      var next := s + |slots[0].frame|;
      FrameInPlace(decode, data, p, slots, tail);
      ScanGap(decode, data, p, s, chunk);
      RecoversIff(decode, data, next, slots[1..], tail, chunk);
      hide LaidOut;
      SameHead(Commit(s, |slots[0].frame|), Scan(decode, data, p, chunk), FramesAt(next, slots[1..]), Scan(decode, data, next, chunk));
    }
  }

  lemma SameHead(c: Commit, scanned: seq<Commit>, expected: seq<Commit>, rest: seq<Commit>)
    requires c !in scanned || scanned == [c] + rest
    ensures scanned == [c] + expected ==> c in scanned && rest == expected
  {
    if scanned == [c] + expected {
      assert scanned[0] == c && scanned[1..] == expected;
      assert ([c] + rest)[1..] == rest;
    }
  }

  // ---- When is a magic noticed? ------------------------------------------------------

  /** A window that begins `d` bytes before a magic, or a whole number of windows earlier, holds all of it. */
  predicate Fits(d: nat, chunk: nat)
    requires chunk >= 4
  {
    d % chunk <= chunk - 4
  }

  /**
    Where the last window grid before `s` starts: at `c`, or one byte past the last magic from `q` on
    that a scan finds on its way.
    */
  function GridStart(data: seq<Byte>, c: nat, q: nat, s: nat, chunk: nat): (g: nat)
    requires chunk >= 4 && c <= q <= s
    ensures c <= g <= s
    decreases s - q
  {
    if q == s then c
    else if MagicAt(data, q) && Fits(q - c, chunk) then GridStart(data, q + 1, q + 1, s, chunk)
    else GridStart(data, c, q + 1, s, chunk)
  }

  /** Positions without a magic that fits do not move the grid. */
  lemma {:induction false} GridSkips(data: seq<Byte>, c: nat, q: nat, r: nat, s: nat, chunk: nat)
    requires chunk >= 4 && c <= q <= r <= s
    requires forall i :: q <= i < r ==> !(MagicAt(data, i) && Fits(i - c, chunk))
    ensures GridStart(data, c, q, s, chunk) == GridStart(data, c, r, s, chunk)
    decreases r - q
  {
    hide MagicAt, Fits;
    if q < r { GridSkips(data, c, q + 1, r, s, chunk); }
  }

  /** Nor does it matter by how many whole windows the grid started earlier. */
  lemma {:induction false} GridShift(data: seq<Byte>, c: nat, q: nat, s: nat, chunk: nat)
    requires chunk >= 4 && c + chunk <= q <= s
    ensures Fits(s - GridStart(data, c, q, s, chunk), chunk) <==> Fits(s - GridStart(data, c + chunk, q, s, chunk), chunk)
    decreases s - q
  {
    hide MagicAt;
    ModStep(q - c, chunk);
    if q < s {
      if !(MagicAt(data, q) && Fits(q - c, chunk)) { GridShift(data, c, q + 1, s, chunk); }
    }
  }

  /**
    The closed form of the scan's windows: a magic is noticed unless it begins in the last three places
    of a window of the grid in force there.
    */
  lemma {:induction false} NoticedIff(data: seq<Byte>, p: nat, s: nat, chunk: nat)
    requires chunk >= 4 && p <= s && MagicAt(data, s)
    ensures Noticed(data, p, s, chunk) <==> Fits(s - GridStart(data, p, p, s, chunk), chunk)
    decreases s - p
  {
    hide MagicAt, Fits, Noticed, Find;
    var limit := WindowEnd(data, p, chunk);
    var magic := Find(data, p, limit);
    assert s + 4 <= |data| by { MagicInside(data, s); }
    NoticedRound(data, p, s, chunk, limit, magic);
    if magic.Some? && magic.value <= s {
      var m := magic.value;
      FitsSmall(m - p, chunk);
      GridSkips(data, p, p, m, s, chunk);
      if m < s {
        NoticedIff(data, m + 1, s, chunk);
      }
    } else {
      var r := if limit <= s then limit else s;
      forall i | p <= i < r ensures !(MagicAt(data, i) && Fits(i - p, chunk)) {
        FitsSmall(i - p, chunk);
      }
      GridSkips(data, p, p, r, s, chunk);
      if magic.None? && limit <= s {
        NoticedIff(data, limit, s, chunk);
        GridShift(data, p, limit, s, chunk);
      } else {
        FitsSmall(s - p, chunk);
      }
    }
  }

  /** One step of `Noticed`, by what the window shows. */
  lemma NoticedRound(data: seq<Byte>, p: nat, s: nat, chunk: nat, limit: nat, magic: Option<nat>)
    requires chunk > 0 && p <= s <= |data| && limit == WindowEnd(data, p, chunk) && magic == Find(data, p, limit)
    ensures magic.None? ==> (Noticed(data, p, s, chunk) <==> p < limit <= s && Noticed(data, limit, s, chunk))
    ensures magic.Some? && magic.value < s ==> (Noticed(data, p, s, chunk) <==> Noticed(data, magic.value + 1, s, chunk))
    ensures magic.Some? && magic.value >= s ==> (Noticed(data, p, s, chunk) <==> magic.value == s)
  {
    hide MagicAt, Find;
  }

  lemma MagicInside(data: seq<Byte>, s: nat)
    requires MagicAt(data, s)
    ensures s + 4 <= |data|
  {
  }

  lemma FitsSmall(d: nat, chunk: nat)
    requires chunk >= 4 && d < chunk
    ensures Fits(d, chunk) <==> d + 4 <= chunk
  {
    ModSmall(d, chunk);
  }

  lemma ModStep(a: nat, m: nat)
    requires m > 0 && a >= m
    ensures a % m == (a - m) % m
  {
    var q, r := (a - m) / m, (a - m) % m;
    Distribute(m, q + 1, q);
    Remainder(a, m, q + 1, r);
  }

  lemma Distribute(m: int, x: int, y: int)
    ensures m * (x - y) == m * x - m * y
  {
  }

  lemma AtLeastOnce(m: nat, x: int)
    requires x >= 1
    ensures m * x >= m
  {
  }

  lemma Remainder(a: nat, m: nat, q: nat, r: nat)
    requires m > 0 && a == m * q + r && r < m
    ensures a % m == r
  {
    var q', r' := a / m, a % m;
    assert a == m * q' + r';
    Distribute(m, q, q');
    Distribute(m, q', q);
    if q > q' { AtLeastOnce(m, q - q'); }
    if q < q' { AtLeastOnce(m, q' - q); }
  }

  lemma ModSmall(a: nat, m: nat)
    requires m > 0
    ensures a < m ==> a % m == a
  {
  }

  // ---- Damage, gap by gap ---------------------------------------------------------------

  /** The same for a gap by itself: where the grid starts that reaches the gap's end. */
  function Restart(gap: seq<Byte>, chunk: nat): (g: nat)
    requires chunk >= 4
    ensures g <= |gap|
  {
    GridStart(gap, 0, 0, |gap|, chunk)
  }

  /** The first byte of the magic occurs nowhere else in it, so a gap and a frame cannot make one together. */
  lemma NoMagicAcross(gap: seq<Byte>, rest: seq<Byte>, q: nat)
    requires q < |gap| && MagicAt(rest, 0)
    ensures MagicAt(gap + rest, q) <==> MagicAt(gap, q)
  {
    var all := gap + rest;
    if q + 4 <= |gap| {
      assert all[q] == gap[q] && all[q + 1] == gap[q + 1] && all[q + 2] == gap[q + 2] && all[q + 3] == gap[q + 3];
    } else {
      assert all[|gap|] == 0x28;
    }
  }

  lemma MagicShift(data: seq<Byte>, p: nat, q: nat)
    requires p <= |data|
    ensures MagicAt(data[p..], q) <==> MagicAt(data, p + q)
  {
  }

  lemma {:induction false} GridInPlace(data: seq<Byte>, p: nat, gap: seq<Byte>, c: nat, q: nat, chunk: nat)
    requires chunk >= 4 && c <= q <= |gap|
    requires forall i :: 0 <= i < |gap| ==> (MagicAt(data, p + i) <==> MagicAt(gap, i))
    ensures GridStart(data, p + c, p + q, p + |gap|, chunk) == p + GridStart(gap, c, q, |gap|, chunk)
    decreases |gap| - q
  {
    hide MagicAt, Fits;
    if q < |gap| {
      assert MagicAt(data, p + q) <==> MagicAt(gap, q);
      if MagicAt(gap, q) && Fits(q - c, chunk) {
        GridInPlace(data, p, gap, q + 1, q + 1, chunk);
      } else {
        GridInPlace(data, p, gap, c, q + 1, chunk);
      }
    }
  }

  /** No magic in the damage starts a frame that decodes after all; the frames between are intact. */
  ghost predicate DamagedLayout(decode: Decoder, slots: seq<Slot>, tail: seq<Byte>)
    decreases slots
  {
    var data := Payload(slots, tail);
    if slots == [] then Inert(decode, data, 0, |data|)
    else
      && Intact(decode, slots[0].frame)
      && Inert(decode, data, 0, |slots[0].gap|)
      && DamagedLayout(decode, slots[1..], tail)
  }

  /** Every gap ends at a place where the grid in force still holds a whole magic. */
  predicate Aligned(slots: seq<Slot>, chunk: nat)
    requires chunk >= 4
  {
    forall i :: 0 <= i < |slots| ==> Fits(|slots[i].gap| - Restart(slots[i].gap, chunk), chunk)
  }

  lemma InertShift(decode: Decoder, data: seq<Byte>, p: nat, n: nat)
    requires p <= |data| && n <= |data[p..]| && Inert(decode, data[p..], 0, n)
    ensures Inert(decode, data, p, p + n)
  {
    hide MagicAt;
    forall q | p <= q < p + n && MagicAt(data, q) ensures !decode(data[q..]).Done? {
      MagicShift(data, p, q - p);
      assert data[p..][q - p..] == data[q..];
    }
  }

  lemma CutAway(data: seq<Byte>, p: nat, first: seq<Byte>, rest: seq<Byte>)
    requires p <= |data| && data[p..] == first + rest
    ensures p + |first| <= |data| && data[p + |first|..] == rest
  {
    assert data[p + |first|..] == data[p..][|first|..];
  }

  /** The first slot of a damaged payload, where it lies. */
  lemma SlotInPlace(data: seq<Byte>, p: nat, slot: Slot, rest: seq<Byte>)
    requires MagicAt(slot.frame, 0)
    requires p <= |data| && data[p..] == slot.gap + slot.frame + rest
    ensures var s := p + |slot.gap|;
            && s + |slot.frame| <= |data| && data[s + |slot.frame|..] == rest && MagicAt(data, s)
            && forall i :: 0 <= i < |slot.gap| ==> (MagicAt(data, p + i) <==> MagicAt(slot.gap, i))
  {
    hide MagicAt;
    var s := p + |slot.gap|;
    assert slot.gap + slot.frame + rest == slot.gap + (slot.frame + rest);
    CutAway(data, p, slot.gap, slot.frame + rest);
    CutAway(data, s, slot.frame, rest);
    MagicPrefix(slot.frame, rest);
    MagicShift(data, s, 0);
    forall i | 0 <= i < |slot.gap| ensures MagicAt(data, p + i) <==> MagicAt(slot.gap, i) {
      NoMagicAcross(slot.gap, slot.frame + rest, i);
      MagicShift(data, p, i);
    }
  }

  lemma AlignedCons(slots: seq<Slot>, chunk: nat)
    requires chunk >= 4 && slots != []
    ensures Aligned(slots, chunk) <==> Fits(|slots[0].gap| - Restart(slots[0].gap, chunk), chunk) && Aligned(slots[1..], chunk)
  {
    hide Fits, Restart;
    assert forall i :: 0 <= i < |slots[1..]| ==> slots[1..][i] == slots[i + 1];
    assert forall i :: 1 <= i < |slots| ==> slots[i] == slots[1..][i - 1];
  }

  lemma AlignedNil(chunk: nat)
    requires chunk >= 4
    ensures Aligned([], chunk)
  {
  }

  lemma {:induction false} DamagedIsLaidOut(decode: Decoder, data: seq<Byte>, p: nat, slots: seq<Slot>, tail: seq<Byte>, chunk: nat)
    requires Streaming(decode) && chunk >= 4 && DamagedLayout(decode, slots, tail)
    requires p <= |data| && data[p..] == Payload(slots, tail)
    ensures LaidOut(decode, data, p, slots, tail)
    ensures AllNoticed(data, p, slots, chunk) <==> Aligned(slots, chunk)
    decreases |slots|
  {
    hide MagicAt, Streaming, Aligned, Noticed, Inert, GridStart, Fits;
    if slots == [] {
      InertShift(decode, data, p, |data[p..]|);
      AlignedNil(chunk);
    } else {
      var s := p + |slots[0].gap|;
      SlotInPlace(data, p, slots[0], Payload(slots[1..], tail));
      InertShift(decode, data, p, |slots[0].gap|);
      NoticedIff(data, p, s, chunk);
      GridInPlace(data, p, slots[0].gap, 0, 0, chunk);
      AlignedCons(slots, chunk);
      DamagedIsLaidOut(decode, data, s + |slots[0].frame|, slots[1..], tail, chunk);
    }
  }

  lemma MagicPrefix(frame: seq<Byte>, rest: seq<Byte>)
    requires MagicAt(frame, 0)
    ensures MagicAt(frame + rest, 0)
  {
  }

  /**
    Recovery, decided gap by gap: with any damage that does not decode, surviving magics of broken frames
    included, the scanner recovers all intact frames and nothing else exactly when every gap is aligned.
    */
  lemma RecoversFromDamageIff(decode: Decoder, slots: seq<Slot>, tail: seq<Byte>, chunk: nat)
    requires Streaming(decode) && chunk >= 4 && DamagedLayout(decode, slots, tail)
    ensures Scan(decode, Payload(slots, tail), 0, chunk) == FramesAt(0, slots) <==> Aligned(slots, chunk)
  {
    hide Scan, Streaming, Aligned, DamagedLayout;
    var data := Payload(slots, tail);
    assert data[0..] == data;
    DamagedIsLaidOut(decode, data, 0, slots, tail, chunk);
    RecoversIff(decode, data, 0, slots, tail, chunk);
  }

  /** No byte of the gap starts a magic, as in the zero bytes of missing pieces. */
  predicate Plain(gap: seq<Byte>) {
    forall q :: 0 <= q < |gap| ==> !MagicAt(gap, q)
  }

  /** The gap is what is left of one frame: its own magic at the start, and none after that. */
  predicate Broken(gap: seq<Byte>) {
    MagicAt(gap, 0) && forall q :: 0 < q < |gap| ==> !MagicAt(gap, q)
  }

  /** Zero bytes are harmless unless they leave less than four bytes of their last window. */
  lemma PlainRestart(gap: seq<Byte>, chunk: nat)
    requires chunk >= 4 && Plain(gap)
    ensures Restart(gap, chunk) == 0
  {
    hide MagicAt;
    GridSkips(gap, 0, 0, |gap|, |gap|, chunk);
  }

  /** After one broken frame the windows start one byte past its magic. */
  lemma BrokenRestart(gap: seq<Byte>, chunk: nat)
    requires chunk >= 4 && Broken(gap)
    ensures Restart(gap, chunk) == 1
  {
    assert |gap| >= 4;
    hide MagicAt;
    FitsSmall(0, chunk);
    GridSkips(gap, 1, 1, |gap|, |gap|, chunk);
  }

  lemma PlainIsInert(decode: Decoder, gap: seq<Byte>, rest: seq<Byte>)
    requires Plain(gap) && (rest == [] || MagicAt(rest, 0))
    ensures Inert(decode, gap + rest, 0, |gap|)
  {
    hide MagicAt;
    forall q | 0 <= q < |gap| ensures !MagicAt(gap + rest, q) {
      if rest == [] {
        assert gap + rest == gap;
      } else {
        NoMagicAcross(gap, rest, q);
      }
    }
  }

  lemma {:induction false} PlainIsDamaged(decode: Decoder, slots: seq<Slot>, tail: seq<Byte>)
    requires Plain(tail) && forall i :: 0 <= i < |slots| ==> Plain(slots[i].gap) && Intact(decode, slots[i].frame)
    ensures DamagedLayout(decode, slots, tail)
  {
    hide Plain, Inert, MagicAt;
    if slots == [] {
      assert tail + [] == tail;
      PlainIsInert(decode, tail, []);
    } else {
      assert forall i :: 0 <= i < |slots[1..]| ==> slots[1..][i] == slots[i + 1];
      var rest := slots[0].frame + Payload(slots[1..], tail);
      assert slots[0].gap + slots[0].frame + Payload(slots[1..], tail) == slots[0].gap + rest;
      MagicPrefix(slots[0].frame, Payload(slots[1..], tail));
      PlainIsInert(decode, slots[0].gap, rest);
      PlainIsDamaged(decode, slots[1..], tail);
    }
  }

  /**
    Missing pieces: with magic-free damage that is exactly when no gap length leaves less than four bytes
    of its last window.
    */
  lemma RecoversFromPlainDamageIff(decode: Decoder, slots: seq<Slot>, tail: seq<Byte>, chunk: nat)
    requires Streaming(decode) && chunk >= 4
    requires Plain(tail) && forall i :: 0 <= i < |slots| ==> Plain(slots[i].gap) && Intact(decode, slots[i].frame)
    ensures Scan(decode, Payload(slots, tail), 0, chunk) == FramesAt(0, slots)
       <==> forall i :: 0 <= i < |slots| ==> |slots[i].gap| % chunk <= chunk - 4
  {
    hide Scan, Streaming, Plain, Intact, Restart, DamagedLayout;
    PlainIsDamaged(decode, slots, tail);
    RecoversFromDamageIff(decode, slots, tail, chunk);
    forall i | 0 <= i < |slots| ensures Restart(slots[i].gap, chunk) == 0 {
      PlainRestart(slots[i].gap, chunk);
    }
  }

  /** On an undamaged file every read-chunk size of four bytes or more finds every frame. */
  lemma ChunkIndependence(decode: Decoder, slots: seq<Slot>, chunk: nat)
    requires Streaming(decode) && chunk >= 4
    requires forall i :: 0 <= i < |slots| ==> slots[i].gap == [] && Intact(decode, slots[i].frame)
    ensures Scan(decode, Payload(slots, []), 0, chunk) == FramesAt(0, slots)
  {
    hide Streaming, Intact, Scan;
    assert Plain([]) && forall i :: 0 <= i < |slots| ==> |slots[i].gap| == 0;
    ModSmall(0, chunk);
    RecoversFromPlainDamageIff(decode, slots, [], chunk);
  }

  /** Past magic-free bytes a frame that begins in the last three places of a window is lost for good. */
  lemma OverlookedFrame(decode: Decoder, gap: seq<Byte>, frame: seq<Byte>, chunk: nat)
    requires Streaming(decode) && chunk >= 4 && Plain(gap) && Intact(decode, frame) && !Fits(|gap|, chunk)
    ensures Commit(|gap|, |frame|) !in Scan(decode, gap + frame, 0, chunk)
  {
    hide Streaming, MagicAt, Scan, Find;
    var data := gap + frame;
    assert data[|gap|..] == frame;
    MagicShift(data, |gap|, 0);
    forall q | 0 <= q < |gap| ensures !MagicAt(data, q) { NoMagicAcross(gap, frame, q); }
    GridSkips(data, 0, 0, |gap|, |gap|, chunk);
    NoticedIff(data, 0, |gap|, chunk);
    ScanGap(decode, data, 0, |gap|, chunk);
  }

  /** A decoder whose every frame is just the magic. */
  function MagicDecoder(): Decoder {
    s => if |s| < 4 then NeedMore([]) else Done(4, [])
  }

  lemma MagicDecodes()
    ensures Streaming(MagicDecoder()) && Intact(MagicDecoder(), MAGIC)
  {
  }

  /** Such damage exists for every chunk size: zero bytes up to the last place of a window. */
  lemma SomeFrameIsOverlooked(chunk: nat)
    requires chunk >= 4
    ensures exists decode: Decoder, gap: seq<Byte>, frame: seq<Byte> ::
      && Streaming(decode) && Plain(gap) && Intact(decode, frame)
      && Commit(|gap|, |frame|) !in Scan(decode, gap + frame, 0, chunk)
  {
    var zeros: seq<Byte> := seq(chunk - 1, i => 0);
    assert Plain(zeros);
    MagicDecodes();
    hide Streaming, Plain, Intact, Scan, MagicDecoder;
    FitsSmall(chunk - 1, chunk);
    OverlookedFrame(MagicDecoder(), zeros, MAGIC, chunk);
  }

  // ---- What is committed when some frames are overlooked --------------------------------

  /** Any decodable magic in `[p, s)` is one that the scan from `p` does not notice. */
  ghost predicate Quiet(decode: Decoder, data: seq<Byte>, p: nat, s: nat, chunk: nat)
    requires chunk > 0 && p <= s <= |data|
  {
    forall q :: p <= q < s && MagicAt(data, q) && decode(data[q..]).Done? ==> !Noticed(data, p, q, chunk)
  }

  /** Where the scan goes on changes nothing about what it will notice. */
  lemma QuietFrom(decode: Decoder, data: seq<Byte>, p: nat, next: nat, s: nat, chunk: nat)
    requires chunk > 0 && p < next <= s <= |data| && Quiet(decode, data, p, s, chunk)
    requires var limit := WindowEnd(data, p, chunk);
             var magic := Find(data, p, limit);
             next == if magic.None? then limit else magic.value + 1
    ensures Quiet(decode, data, next, s, chunk)
  {
    hide MagicAt, Find;
    forall q | next <= q < s && MagicAt(data, q) && decode(data[q..]).Done? ensures !Noticed(data, next, q, chunk) {
      assert !Noticed(data, p, q, chunk);
    }
  }

  /** `ScanGap` for such a region. */
  lemma {:induction false} ScanQuiet(decode: Decoder, data: seq<Byte>, p: nat, s: nat, chunk: nat)
    requires Streaming(decode) && chunk > 0 && p <= s <= |data| && Quiet(decode, data, p, s, chunk)
    requires MagicAt(data, s) && decode(data[s..]).Done? && Noticed(data, p, s, chunk)
    ensures var n := decode(data[s..]).consumed;
            Scan(decode, data, p, chunk) == [Commit(s, n)] + Scan(decode, data, s + n, chunk)
    decreases s - p
  {
    hide Streaming, Scan, Quiet;
    var limit := WindowEnd(data, p, chunk);
    var magic := Find(data, p, limit);
    FrameLength(decode, data[s..]);
    ScanRound(decode, data, p, chunk, limit, magic);
    if magic.None? {
      QuietFrom(decode, data, p, limit, s, chunk);
      ScanQuiet(decode, data, limit, s, chunk);
    } else if magic.value < s {
      QuietFrom(decode, data, p, magic.value + 1, s, chunk);
      NoticedNotDone(decode, data, p, s, magic.value, chunk);
      ScanQuiet(decode, data, magic.value + 1, s, chunk);
    }
  }

  lemma NoticedNotDone(decode: Decoder, data: seq<Byte>, p: nat, s: nat, m: nat, chunk: nat)
    requires chunk > 0 && p <= m < s <= |data| && Quiet(decode, data, p, s, chunk)
    requires Find(data, p, WindowEnd(data, p, chunk)) == Some(m)
    ensures !decode(data[m..]).Done?
  {
    hide MagicAt;
    assert MagicAt(data, m) && Noticed(data, p, m, chunk);
  }

  lemma {:induction false} ScanQuietTail(decode: Decoder, data: seq<Byte>, p: nat, chunk: nat)
    requires Streaming(decode) && chunk > 0 && p <= |data| && Quiet(decode, data, p, |data|, chunk)
    ensures Scan(decode, data, p, chunk) == []
    decreases |data| - p
  {
    hide Streaming, Scan, Quiet;
    if p == |data| {
      ScanAtEnd(decode, data, p, chunk);
    } else {
      var limit := WindowEnd(data, p, chunk);
      var magic := Find(data, p, limit);
      ScanRound(decode, data, p, chunk, limit, magic);
      if magic.None? {
        QuietFrom(decode, data, p, limit, |data|, chunk);
        ScanQuietTail(decode, data, limit, chunk);
      } else {
        QuietFrom(decode, data, p, magic.value + 1, |data|, chunk);
        NoticedNotDone(decode, data, p, |data|, magic.value, chunk);
        ScanQuietTail(decode, data, magic.value + 1, chunk);
      }
    }
  }

  /** A layout whose intact frames have no decodable magic inside them. */
  ghost predicate PlainFrames(decode: Decoder, data: seq<Byte>, p: nat, slots: seq<Slot>)
    decreases slots
  {
    slots == [] ||
    var s := p + |slots[0].gap|;
    var next := s + |slots[0].frame|;
    s < next <= |data| && Inert(decode, data, s + 1, next) && PlainFrames(decode, data, next, slots[1..])
  }

  /**
    The frames that a scan from `p` commits, of those laid out from `q` on: a frame is committed when it
    fits the grid in force, which then starts anew behind it; otherwise it counts as part of the next gap.
    */
  function Recovered(data: seq<Byte>, p: nat, q: nat, slots: seq<Slot>, chunk: nat): seq<Commit>
    requires chunk >= 4 && p <= q
    decreases slots
  {
    if slots == [] then []
    else
      var s := q + |slots[0].gap|;
      var next := s + |slots[0].frame|;
      if Fits(s - GridStart(data, p, p, s, chunk), chunk)
      then [Commit(s, |slots[0].frame|)] + Recovered(data, next, next, slots[1..], chunk)
      else Recovered(data, p, next, slots[1..], chunk)
  }

  lemma QuietEmpty(decode: Decoder, data: seq<Byte>, p: nat, chunk: nat)
    requires chunk > 0 && p <= |data|
    ensures Quiet(decode, data, p, p, chunk)
  {
  }

  lemma QuietInert(decode: Decoder, data: seq<Byte>, p: nat, q: nat, s: nat, chunk: nat)
    requires chunk > 0 && p <= q <= s <= |data| && Quiet(decode, data, p, q, chunk) && Inert(decode, data, q, s)
    ensures Quiet(decode, data, p, s, chunk)
  {
    hide Noticed, MagicAt;
  }

  lemma QuietOverlooked(decode: Decoder, data: seq<Byte>, p: nat, s: nat, next: nat, chunk: nat)
    requires chunk > 0 && p <= s < next <= |data| && Quiet(decode, data, p, s, chunk)
    requires !Noticed(data, p, s, chunk) && Inert(decode, data, s + 1, next)
    ensures Quiet(decode, data, p, next, chunk)
  {
    hide Noticed, MagicAt;
  }

  /** The scan commits exactly the recovered frames, whatever is overlooked on the way. */
  lemma {:induction false} ScanIsRecovered(decode: Decoder, data: seq<Byte>, p: nat, q: nat, slots: seq<Slot>, tail: seq<Byte>, chunk: nat)
    requires Streaming(decode) && chunk >= 4 && p <= q
    requires LaidOut(decode, data, q, slots, tail) && PlainFrames(decode, data, q, slots)
    requires Quiet(decode, data, p, q, chunk)
    ensures Scan(decode, data, p, chunk) == Recovered(data, p, q, slots, chunk)
    decreases |slots|
  {
    hide Streaming, Quiet, Inert, Scan, GridStart, Fits, Noticed, MagicAt;
    if slots == [] {
      QuietInert(decode, data, p, q, |data|, chunk);
      ScanQuietTail(decode, data, p, chunk);
    } else {
      var s := q + |slots[0].gap|;
      var next := s + |slots[0].frame|;
      FrameInPlace(decode, data, q, slots, tail);
      QuietInert(decode, data, p, q, s, chunk);
      NoticedIff(data, p, s, chunk);
      if Noticed(data, p, s, chunk) {
        ScanQuiet(decode, data, p, s, chunk);
        QuietEmpty(decode, data, next, chunk);
        ScanIsRecovered(decode, data, next, next, slots[1..], tail, chunk);
      } else {
        QuietOverlooked(decode, data, p, s, next, chunk);
        ScanIsRecovered(decode, data, p, next, slots[1..], tail, chunk);
      }
    }
  }

  /** For a whole payload. */
  lemma RecoveredFrames(decode: Decoder, data: seq<Byte>, slots: seq<Slot>, tail: seq<Byte>, chunk: nat)
    requires Streaming(decode) && chunk >= 4
    requires LaidOut(decode, data, 0, slots, tail) && PlainFrames(decode, data, 0, slots)
    ensures Scan(decode, data, 0, chunk) == Recovered(data, 0, 0, slots, chunk)
  {
    hide Streaming, Scan, LaidOut, PlainFrames;
    QuietEmpty(decode, data, 0, chunk);
    ScanIsRecovered(decode, data, 0, 0, slots, tail, chunk);
  }

  // ---- Lines ------------------------------------------------------------------------

  /** The lines of the intact frames, frame after frame. */
  function FrameLines(decode: Decoder, split: LineSplitter, slots: seq<Slot>): seq<string> {
    if slots == [] then []
    else split(TextAt(decode, slots[0].frame, 0)) + FrameLines(decode, split, slots[1..])
  }

  /** Frame by frame, and nothing but what the frame itself decodes to. */
  lemma {:induction false} FrameLinesMeaning(decode: Decoder, split: LineSplitter, before: seq<Slot>, slot: Slot)
    requires Intact(decode, slot.frame)
    ensures FrameLines(decode, split, before + [slot])
         == FrameLines(decode, split, before) + split(decode(slot.frame).out)
    ensures FrameLines(decode, split, []) == []
  {
    if before == [] {
      assert before + [slot] == [slot] && slot.frame[0..] == slot.frame;
      assert FrameLines(decode, split, [slot]) == split(TextAt(decode, slot.frame, 0)) + FrameLines(decode, split, [slot][1..]);
    } else {
      FrameLinesMeaning(decode, split, before[1..], slot);
      assert (before + [slot])[1..] == before[1..] + [slot];
    }
  }

  lemma {:induction false} LinesOfCons(decode: Decoder, split: LineSplitter, data: seq<Byte>, c: Commit, commits: seq<Commit>)
    ensures LinesOf(decode, split, data, [c] + commits)
         == split(TextAt(decode, data, c.start)) + LinesOf(decode, split, data, commits)
  {
    hide TextAt;
    if commits == [] {
      assert [] + [c] == [c] == [c] + commits;
      LinesOfNext(decode, split, data, [], c);
    } else {
      var front, last := commits[..|commits| - 1], commits[|commits| - 1];
      assert commits == front + [last] && [c] + commits == ([c] + front) + [last];
      LinesOfCons(decode, split, data, c, front);
      LinesOfNext(decode, split, data, front, last);
      LinesOfNext(decode, split, data, [c] + front, last);
    }
  }

  lemma {:induction false} LinesOfLayout(decode: Decoder, split: LineSplitter, data: seq<Byte>, p: nat, slots: seq<Slot>, tail: seq<Byte>)
    requires Streaming(decode) && LaidOut(decode, data, p, slots, tail)
    ensures LinesOf(decode, split, data, FramesAt(p, slots)) == FrameLines(decode, split, slots)
    decreases |slots|
  {
    hide Streaming, MagicAt, Inert, LinesOf;
    if slots == [] {
      NoLines(decode, split, data);
    } else {
      var s := p + |slots[0].gap|;
      var next := s + |slots[0].frame|;
      FrameInPlace(decode, data, p, slots, tail);
      LinesOfLayout(decode, split, data, next, slots[1..], tail);
      LinesOfCons(decode, split, data, Commit(s, |slots[0].frame|), FramesAt(next, slots[1..]));
      assert slots[0].frame[0..] == slots[0].frame;
    }
  }

  lemma NoLines(decode: Decoder, split: LineSplitter, data: seq<Byte>)
    ensures LinesOf(decode, split, data, []) == []
  {
  }

  /** A resilient import reads every line of every intact frame, once and in order, and no other line. */
  lemma RecoveredLines(decode: Decoder, split: LineSplitter, data: seq<Byte>, slots: seq<Slot>, tail: seq<Byte>, chunk: nat)
    requires Streaming(decode) && chunk > 0
    requires LaidOut(decode, data, 0, slots, tail) && AllNoticed(data, 0, slots, chunk)
    ensures LinesOf(decode, split, data, Scan(decode, data, 0, chunk)) == FrameLines(decode, split, slots)
  {
    RecoversIff(decode, data, 0, slots, tail, chunk);
    LinesOfLayout(decode, split, data, 0, slots, tail);
  }

  /** The decoder laws are consistent: here is a decoder whose every frame is just the magic. */
  lemma StreamingDecodersExist()
    ensures exists decode: Decoder :: Streaming(decode) && Intact(decode, MAGIC)
  {
    MagicDecodes();
  }
}
