/** Reading decoded media from pipes that split the stream into arbitrary pieces. */
module MediaPipes {
  import opened Results
  import opened Sequences
  import opened Topology
  import ColourReconstruction

  const CHANNELS := 2
  const BYTES_PER_SAMPLE := 2
  const SAMPLES_PER_FRAME := 48_000 / 20
  const PCM_FRAME_BYTES := SAMPLES_PER_FRAME * CHANNELS * BYTES_PER_SAMPLE
  const MAX_SEQUENCE := 0xFFFF_FFFF_FFFF_FFFF

  datatype PipeError = ReadFailed | UnexpectedEof

  /** What the system does with one read: deliver up to `size` bytes, or fail. */
  datatype Delivery = Piece(size: nat) | Failure

  /** The reading end of a pipe: the bytes still to come, and how the coming reads will split them. */
  class Pipe {
    var stream: seq<Byte>
    var deliveries: seq<Delivery>

    constructor (stream: seq<Byte>, deliveries: seq<Delivery>)
      ensures this.stream == stream && this.deliveries == deliveries
    {
      this.stream, this.deliveries := stream, deliveries;
    }

    /** Reads at least one byte into `buffer` from `offset` on, or none at the end of the stream. */
    method Read(buffer: array<Byte>, offset: nat) returns (r: Result<nat, PipeError>)
      requires offset < buffer.Length
      modifies this, buffer
      ensures deliveries == if old(deliveries) == [] then [] else old(deliveries)[1..]
      ensures r.Err? <==> old(deliveries) != [] && old(deliveries)[0].Failure?
      ensures r.Err? ==> r.error == ReadFailed && stream == old(stream)
      ensures r.Ok? ==> r.value <= |old(stream)| && offset + r.value <= buffer.Length
      ensures r.Ok? ==> (r.value == 0 <==> old(stream) == [])
      ensures r.Ok? ==> stream == old(stream)[r.value..]
      ensures r.Ok? ==> buffer[..offset + r.value] == old(buffer[..offset]) + old(stream)[..r.value]
    {
      var size := buffer.Length - offset;
      if deliveries != [] {
        var delivery := deliveries[0];
        deliveries := deliveries[1..];
        if delivery.Failure? {
          return Err(ReadFailed);
        }
        if delivery.size < size {
          size := if delivery.size == 0 then 1 else delivery.size;
        }
      }
      var count := if |stream| < size then |stream| else size;
      ghost var before := buffer[..offset];
      for i := 0 to count
        invariant stream == old(stream) && deliveries == old(if deliveries == [] then [] else deliveries[1..])
        invariant buffer[..offset + i] == before + stream[..i]
      {
        buffer[offset + i] := stream[i];
        assert buffer[..offset + i + 1] == buffer[..offset + i] + [stream[i]];
        assert stream[..i + 1] == stream[..i] + [stream[i]];
      }
      stream := stream[count..];
      return Ok(count);
    }
  }

  // ----- Audio

  /** The part of a window that holds whole stereo samples. */
  function Whole(pcm: seq<Byte>): seq<Byte> {
    pcm[..|pcm| - |pcm| % (CHANNELS * BYTES_PER_SAMPLE)]
  }

  /** The windows into which a stream falls: all of the full size, except that the last may be shorter. */
  function Windows(stream: seq<Byte>, size: nat): seq<seq<Byte>>
    requires size > 0
    decreases |stream|
  {
    if stream == [] then []
    else if |stream| < size then [Whole(stream)]
    else [Whole(stream[..size])] + Windows(stream[size..], size)
  }

  function Joined(windows: seq<seq<Byte>>): seq<Byte> {
    if windows == [] then [] else Joined(windows[..|windows| - 1]) + windows[|windows| - 1]
  }

  /** The end of the player's pipe, and the spectra published so far, each standing for its window. */
  class Player {
    var received: seq<Byte>
    var published: seq<seq<Byte>>

    constructor ()
      ensures received == [] && published == []
    {
      received, published := [], [];
    }
  }

  /** The windows join to the whole samples of the stream. */
  lemma {:induction false} WindowsJoin(stream: seq<Byte>, size: nat)
    requires size > 0 && size % (CHANNELS * BYTES_PER_SAMPLE) == 0
    ensures Joined(Windows(stream, size)) == Whole(stream)
    decreases |stream|
  {
    if |stream| >= size {
      var first, rest := stream[..size], stream[size..];
      WindowsJoin(rest, size);
      JoinedFront(first, Windows(rest, size));
      WholeAppend(first, rest);
      assert stream == first + rest;
    } else if stream != [] {
      JoinedFront(Whole(stream), []);
    }
  }

  lemma {:induction false} WholeAppend(first: seq<Byte>, rest: seq<Byte>)
    requires |first| % (CHANNELS * BYTES_PER_SAMPLE) == 0
    ensures Whole(first) == first && Whole(first + rest) == first + Whole(rest)
  {
    assert |first + rest| % 4 == |rest| % 4;
  }

  /** A stream falls into just as many windows as its length needs. */
  lemma {:induction false} WindowsAreEnough(stream: seq<Byte>, size: nat)
    requires size > 0
    ensures |Windows(stream, size)| == (|stream| + size - 1) / size
    decreases |stream|
  {
    if |stream| >= size {
      WindowsAreEnough(stream[size..], size);
      DivideStep(|stream| + size - 1, size);
    } else if stream != [] {
      DivideStep(|stream| + size - 1, size);
      DivideSmall(|stream| - 1, size);
    } else {
      DivideSmall(size - 1, size);
    }
  }

  /** What is forwarded is the longest prefix of the stream made of whole samples. */
  lemma {:induction false} WholeIsLongest(stream: seq<Byte>, prefix: seq<Byte>)
    requires prefix <= stream && |prefix| % (CHANNELS * BYTES_PER_SAMPLE) == 0
    ensures Whole(stream) <= stream && |Whole(stream)| % (CHANNELS * BYTES_PER_SAMPLE) == 0
    ensures prefix <= Whole(stream)
  {
  }

  lemma {:induction false} DivideStep(a: nat, size: nat)
    requires 0 < size <= a
    ensures a / size == (a - size) / size + 1 && a % size == (a - size) % size
  {
    var q, m := (a - size) / size, (a - size) % size;
    assert a == (q + 1) * size + m;
    DivideUnique(a, size, q + 1, m);
  }

  lemma {:induction false} DivideSmall(a: nat, size: nat)
    requires a < size
    ensures a / size == 0 && a % size == a
  {
    DivideUnique(a, size, 0, a);
  }

  lemma {:induction false} DivideUnique(a: nat, size: nat, q: nat, m: nat)
    requires m < size && a == q * size + m
    ensures a / size == q && a % size == m
  {
    var d := a / size - q;
    assert d * size == m - a % size;
    assert d * size < size && d * size + size > 0;
  }

  lemma {:induction false} JoinedFront(first: seq<Byte>, rest: seq<seq<Byte>>)
    ensures Joined([first] + rest) == first + Joined(rest)
  {
    var all := [first] + rest;
    if rest == [] {
      assert Joined([first]) == first;
    } else {
      var init, last := rest[..|rest| - 1], rest[|rest| - 1];
      JoinedFront(first, init);
      assert all[..|all| - 1] == [first] + init;
      AppendAssociates(first, Joined(init), last);
    }
  }

  /** Fills the buffer, or takes what is left of the stream. */
  method FillWindow(pipe: Pipe, buffer: array<Byte>) returns (r: Result<nat, PipeError>)
    modifies pipe, buffer
    ensures forall d :: d in pipe.deliveries ==> d in old(pipe.deliveries)
    ensures r.Err? ==> r.error == ReadFailed && Failure in old(pipe.deliveries)
    ensures r.Ok? ==> r.value == if |old(pipe.stream)| < buffer.Length then |old(pipe.stream)| else buffer.Length
    ensures r.Ok? ==> buffer[..r.value] == old(pipe.stream)[..r.value] && pipe.stream == old(pipe.stream)[r.value..]
  {
    var read := 0;
    while read < buffer.Length
      invariant 0 <= read <= buffer.Length && read <= |old(pipe.stream)|
      invariant forall d :: d in pipe.deliveries ==> d in old(pipe.deliveries)
      invariant buffer[..read] == old(pipe.stream)[..read] && pipe.stream == old(pipe.stream)[read..]
      decreases buffer.Length - read
    {
      var count := pipe.Read(buffer, read);
      if count.Err? {
        return Err(count.error);
      }
      if count.value == 0 {
        break;
      }
      read := read + count.value;
    }
    return Ok(read);
  }

  /** Reads the next window, and returns how many bytes were read and those of them in whole samples. */
  method NextWindow(pipe: Pipe, pcm: array<Byte>) returns (r: Result<(nat, seq<Byte>), PipeError>)
    requires pcm.Length > 0
    modifies pipe, pcm
    ensures forall d :: d in pipe.deliveries ==> d in old(pipe.deliveries)
    ensures r.Err? ==> r.error == ReadFailed && Failure in old(pipe.deliveries)
    ensures r.Ok? && r.value.0 == 0 ==> old(pipe.stream) == []
    ensures r.Ok? && r.value.0 < pcm.Length ==> pipe.stream == []
    ensures r.Ok? && r.value.0 > 0 ==>
              var windows := Windows(old(pipe.stream), pcm.Length);
              && windows != [] && windows[0] == r.value.1 && windows[1..] == Windows(pipe.stream, pcm.Length)
              && |pipe.stream| < |old(pipe.stream)|
  {
    var read := FillWindow(pipe, pcm);
    if read.Err? {
      return Err(read.error);
    }
    var complete := read.value - read.value % (CHANNELS * BYTES_PER_SAMPLE);
    if read.value > 0 {
      assert pcm[..complete] == pcm[..read.value][..complete];
      WindowFilled(old(pipe.stream), pcm.Length, pcm[..read.value]);
    }
    return Ok((read.value, pcm[..complete]));
  }

  /** Forwards the stream window by window, and publishes a spectrum for each window. */
  method PlayWindows(pipe: Pipe, player: Player, pcm: array<Byte>)
    returns (r: Result<(), PipeError>, ghost published: seq<seq<Byte>>)
    requires pcm.Length > 0
    modifies pipe, player, pcm
    ensures r.Err? ==> r.error == ReadFailed && Failure in old(pipe.deliveries)
    ensures player.published == old(player.published) + published
    ensures player.received == old(player.received) + Joined(published)
    ensures published <= Windows(old(pipe.stream), pcm.Length)
    ensures r.Ok? ==> published == Windows(old(pipe.stream), pcm.Length)
  {
    published := [];
    ghost var windows := Windows(pipe.stream, pcm.Length);
    ghost var left := windows;
    assert Joined([]) == [];
    while true
      invariant forall d :: d in pipe.deliveries ==> d in old(pipe.deliveries)
      invariant left == Windows(pipe.stream, pcm.Length)
      invariant Forwarded(old(player.received), player.received, old(player.published), player.published, published,
                  left, windows)
      decreases |pipe.stream|
    {
      var read := NextWindow(pipe, pcm);
      if read.Err? {
        return Err(read.error), published;
      }
      var (count, window) := read.value;
      if count == 0 {
        break;
      }
      ForwardOne(old(player.received), player.received, old(player.published), player.published, published, left,
        windows);
      player.received := player.received + window;
      player.published := player.published + [window];
      published, left := published + [window], left[1..];
      if count < pcm.Length {
        break;
      }
    }
    assert left == [];
    return Ok(()), published;
  }

  /** Of `windows`, exactly those of `published` have been forwarded, and `left` are still to come. */
  ghost predicate Forwarded(received0: seq<Byte>, received: seq<Byte>, published0: seq<seq<Byte>>,
                            published1: seq<seq<Byte>>,
                            published: seq<seq<Byte>>, left: seq<seq<Byte>>, windows: seq<seq<Byte>>) {
    received == received0 + Joined(published) && published1 == published0 + published && windows == published + left
  }

  lemma {:induction false} ForwardOne(received0: seq<Byte>, received: seq<Byte>, published0: seq<seq<Byte>>,
                                      published1: seq<seq<Byte>>,
                   published: seq<seq<Byte>>, left: seq<seq<Byte>>, windows: seq<seq<Byte>>)
    requires left != [] && Forwarded(received0, received, published0, published1, published, left, windows)
    ensures Forwarded(received0, received + left[0], published0, published1 + [left[0]], published + [left[0]],
              left[1..], windows)
  {
    var window := left[0];
    assert (published + [window])[..|published|] == published;
    AppendAssociates(received0, Joined(published), window);
    AppendAssociates(published0, published, [window]);
    AppendAssociates(published, [window], left[1..]);
    assert left == [window] + left[1..];
  }

  /** Plays the decoded stream. Unless a read fails, the player receives exactly the whole samples of the stream. */
  method PlayMedia(pipe: Pipe, player: Player) returns (r: Result<(), PipeError>)
    modifies pipe, player
    ensures r.Err? ==> r.error == ReadFailed && Failure in old(pipe.deliveries)
    ensures r.Ok? ==> player.received == old(player.received) + Whole(old(pipe.stream))
    ensures r.Ok? ==> player.published == old(player.published) + Windows(old(pipe.stream), PCM_FRAME_BYTES)
    ensures exists published ::
              && published <= Windows(old(pipe.stream), PCM_FRAME_BYTES)
              && player.published == old(player.published) + published
              && player.received == old(player.received) + Joined(published)
  {
    var pcm := new Byte[PCM_FRAME_BYTES];
    WindowsJoin(pipe.stream, pcm.Length);
    ghost var published;
    r, published := PlayWindows(pipe, player, pcm);
  }

  /** A filled buffer holds the next window. */
  lemma {:induction false} WindowFilled(stream: seq<Byte>, size: nat, filled: seq<Byte>)
    requires size > 0 && stream != []
    requires filled == if |stream| < size then stream else stream[..size]
    ensures Windows(stream, size) != []
    ensures Windows(stream, size)[0] == Whole(filled) && Windows(stream, size)[1..] == Windows(stream[|filled|..], size)
  {
  }

  // ----- Video

  /** The consecutive whole frames at the start of a stream. */
  function Frames(stream: seq<Byte>, size: nat): seq<seq<Byte>>
    requires size > 0
    decreases |stream|
  {
    if |stream| < size then [] else [stream[..size]] + Frames(stream[size..], size)
  }

  /** There is a frame for every whole `size` bytes of the stream. */
  lemma {:induction false} FramesCount(stream: seq<Byte>, size: nat)
    requires size > 0
    ensures |Frames(stream, size)| == |stream| / size
    decreases |stream|
  {
    if |stream| < size {
      DivideSmall(|stream|, size);
    } else {
      FramesCount(stream[size..], size);
      DivideStep(|stream|, size);
    }
  }

  /** Frame `i` starts where the `i` frames before it end. */
  lemma {:induction false} FramesAreConsecutive(stream: seq<Byte>, size: nat, i: nat)
    requires size > 0 && i < |Frames(stream, size)|
    ensures 0 <= i * size <= |stream| - size && Frames(stream, size)[i] == stream[i * size..][..size]
    decreases i
  {
    if i > 0 {
      var start := (i - 1) * size;
      FramesAreConsecutive(stream[size..], size, i - 1);
      assert i * size == start + size;
      assert stream[size..][start..] == stream[start + size..];
    }
  }

  /** A frame uploaded to the keyboard. */
  datatype Upload = Upload(sequence: nat, frame: seq<Byte>)

  /** Fills the frame: false at the end of the stream, an error if the stream ends partway. */
  method ReadFrame(pipe: Pipe, frame: array<Byte>) returns (r: Result<bool, PipeError>)
    requires frame.Length > 0
    modifies pipe, frame
    ensures forall d :: d in pipe.deliveries ==> d in old(pipe.deliveries)
    ensures r == Err(ReadFailed) ==> Failure in old(pipe.deliveries)
    ensures r == Err(UnexpectedEof) ==> 0 < |old(pipe.stream)| < frame.Length
    ensures r == Ok(false) ==> old(pipe.stream) == []
    ensures r == Ok(true) ==>
              |old(pipe.stream)| >= frame.Length && frame[..] == old(pipe.stream)[..frame.Length] &&
              pipe.stream == old(pipe.stream)[frame.Length..]
  {
    var offset := 0;
    while offset < frame.Length
      invariant 0 <= offset <= frame.Length && offset <= |old(pipe.stream)|
      invariant forall d :: d in pipe.deliveries ==> d in old(pipe.deliveries)
      invariant frame[..offset] == old(pipe.stream)[..offset] && pipe.stream == old(pipe.stream)[offset..]
      decreases frame.Length - offset
    {
      var count := pipe.Read(frame, offset);
      if count.Err? {
        return Err(count.error);
      }
      if count.value == 0 {
        return if offset == 0 then Ok(false) else Err(UnexpectedEof);
      }
      offset := offset + count.value;
    }
    assert frame[..] == frame[..frame.Length];
    return Ok(true);
  }

  /**
   Uploads the frames of the video in order. Without read failures, it fails exactly if the stream ends
   partway through a frame.
   */
  method PlayFrames(pipe: Pipe, colour: bool) returns (uploads: seq<Upload>, r: Result<nat, PipeError>)
    modifies pipe
    ensures var frames := Frames(old(pipe.stream), FrameBytes(colour));
            && |uploads| <= |frames|
            && (forall i :: 0 <= i < |uploads| ==> uploads[i] == Upload(Saturated(i), frames[i]))
            && (r == Err(ReadFailed) ==> Failure in old(pipe.deliveries))
            && (r != Err(ReadFailed) ==> |uploads| == |frames|)
            && (r == Err(UnexpectedEof) ==> |old(pipe.stream)| % FrameBytes(colour) != 0)
            && (r.Ok? ==> |old(pipe.stream)| % FrameBytes(colour) == 0 && r.value == Saturated(|frames|))
  {
    var raw := new Byte[FrameBytes(colour)];
    ghost var stream := pipe.stream;
    ghost var frames := Frames(stream, raw.Length);
    var sequence := 0;
    uploads := [];
    while true
      invariant fresh(raw)
      invariant forall d :: d in pipe.deliveries ==> d in old(pipe.deliveries)
      invariant |uploads| <= |frames| && frames[|uploads|..] == Frames(pipe.stream, raw.Length)
      invariant |pipe.stream| % raw.Length == |stream| % raw.Length
      invariant forall i :: 0 <= i < |uploads| ==> uploads[i] == Upload(Saturated(i), frames[i])
      invariant sequence == Saturated(|uploads|)
      decreases |pipe.stream|
    {
      ghost var rest := pipe.stream;
      var more := ReadFrame(pipe, raw);
      if more.Err? {
        if more.error == UnexpectedEof {
          DivideSmall(|rest|, raw.Length);
        }
        return uploads, Err(more.error);
      }
      if !more.value {
        DivideSmall(0, raw.Length);
        break;
      }
      DivideStep(|rest|, raw.Length);
      assert frames[|uploads|..][0] == frames[|uploads|] && frames[|uploads|..][1..] == frames[|uploads| + 1..];
      uploads := uploads + [Upload(sequence, raw[..])];
      sequence := if sequence < MAX_SEQUENCE then sequence + 1 else MAX_SEQUENCE;
    }
    return uploads, Ok(sequence);
  }

  function FrameBytes(colour: bool): nat {
    ColourReconstruction.FRAME_WIDTH * ColourReconstruction.FRAME_HEIGHT * if colour then 3 else 1
  }

  /** The sequence number after `n` saturating increments. */
  function Saturated(n: nat): nat {
    if n < MAX_SEQUENCE then n else MAX_SEQUENCE
  }
}
