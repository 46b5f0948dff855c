/** The audio callback, for one playback: it produces sample frames of whatever size the device asks for, from a
    position that advances and wraps. Main results: `FrameSizesDoNotMatter` and `DelayIsExact`. */
module Playbacks {
  import opened Text

  /** Samples are exact numbers here. */
  type Sample = real

  const U64 := 0x1_0000_0000_0000_0000
  const U32 := 0x1_0000_0000

  /** One channel of the buffer that is played. */
  type Buffer = b: seq<Sample> | |b| < 0x8000_0000

  /** The fields that the callback updates. */
  datatype Cursor = Cursor(delay: nat, position: nat)

  /** One channel of one callback: no samples when the playback is passed over. */
  type Snippet = Option<seq<Sample>>

  function Gain(volume: Sample, volumeScale: Sample): Sample {
    if volume <= 1.0 then (if volume * volumeScale < 1.0 then volume * volumeScale else 1.0) * 4.0 else 0.0
  }

  /** One sample at a volume. */
  function Scaled(value: Sample, gain: Sample): Sample {
    value * gain
  }

  /** The sample that the copy loop reads at `position + sample`. */
  function ReadAt(data: Buffer, loop: bool, position: nat, sample: nat): Sample
    requires position < |data|
  {
    if loop then data[(position + sample) % |data|]
    else if sample < |data| - position then data[position + sample]
    else 0.0
  }

  function Advance(length: nat, loop: bool, c: Cursor, count: nat): Cursor {
    if c.delay > 0 then c.(delay := (c.delay - count) % U64)
    else if c.position >= length then c
    else
      var next := c.position + count;
      c.(position := if loop && next >= length then next % length else next)
  }

  predicate PassedOver(length: nat, c: Cursor) {
    c.delay > 0 || c.position >= length
  }

  function Produce(data: Buffer, loop: bool, gain: Sample, c: Cursor, count: nat): Snippet {
    if PassedOver(|data|, c) then None
    else Some(seq(count, (i: nat) => Scaled(ReadAt(data, loop, c.position, i), gain)))
  }

  class Playback {
    /** All channels have `numSamples` samples. */
    const channels: seq<Buffer>
    const numSamples: nat
    const volume: Sample
    const volumeScale: Sample
    var loop: bool
    var delay: nat
    var playPosition: nat

    predicate Valid() {
      numSamples < 0x8000_0000 && forall c :: 0 <= c < |channels| ==> |channels[c]| == numSamples
    }

    function Value(): Cursor
      reads this
    {
      Cursor(delay, playPosition)
    }

    constructor (channels: seq<Buffer>, numSamples: nat, delay: nat, volume: Sample, volumeScale: Sample)
      requires numSamples < 0x8000_0000 && forall c :: 0 <= c < |channels| ==> |channels[c]| == numSamples
      ensures Valid() && Value() == Cursor(delay, 0) && !loop
      ensures this.channels == channels && this.numSamples == numSamples
    {
      this.channels, this.numSamples, this.delay := channels, numSamples, delay;
      this.volume, this.volumeScale := volume, volumeScale;
      loop, playPosition := false, 0;
    }

    /** `dataCallback` for this playback, up to the effects: the input snippet, if one is produced. */
    method DataCallback(sampleCount: nat) returns (produced: bool, inputBuffer: array2<Sample>)
      requires Valid() && sampleCount < U32 && delay < U64
      modifies this
      ensures loop == old(loop) && delay < U64
      ensures Value() == Advance(numSamples, loop, old(Value()), sampleCount)
      ensures produced == !PassedOver(numSamples, old(Value()))
      ensures produced ==> inputBuffer.Length0 == |channels| && inputBuffer.Length1 == sampleCount
      ensures produced ==> forall c, i :: 0 <= c < |channels| && 0 <= i < sampleCount ==>
        inputBuffer[c, i] == Produce(channels[c], loop, Gain(volume, volumeScale), old(Value()), sampleCount).value[i]
    {
      produced := false;
      inputBuffer := new Sample[0, 0];
      if delay > 0 {
        delay := (delay - sampleCount) % U64;
        return;
      }
      if playPosition >= numSamples {
        return;
      }
      produced := true;
      inputBuffer := CopySnippet(sampleCount);
      playPosition := playPosition + sampleCount;
      if loop && playPosition >= numSamples {
        playPosition := playPosition % numSamples;
      }
    }

    /** The two nested copy loops. */
    method CopySnippet(sampleCount: nat) returns (inputBuffer: array2<Sample>)
      requires Valid() && playPosition < numSamples
      ensures fresh(inputBuffer) && inputBuffer.Length0 == |channels| && inputBuffer.Length1 == sampleCount
      ensures forall c, i :: 0 <= c < |channels| && 0 <= i < sampleCount ==>
        inputBuffer[c, i] == Scaled(ReadAt(channels[c], loop, playPosition, i), Gain(volume, volumeScale))
    {
      var availableSamples := numSamples - playPosition;
      inputBuffer := new Sample[|channels|, sampleCount];
      var gain := Gain(volume, volumeScale);
      for channel := 0 to |channels|
        invariant forall c, i :: 0 <= c < channel && 0 <= i < sampleCount ==>
          inputBuffer[c, i] == Scaled(ReadAt(channels[c], loop, playPosition, i), gain)
      {
        for sample := 0 to sampleCount
          invariant forall c, i :: 0 <= c < channel && 0 <= i < sampleCount ==>
            inputBuffer[c, i] == Scaled(ReadAt(channels[c], loop, playPosition, i), gain)
          invariant forall i :: 0 <= i < sample ==>
            inputBuffer[channel, i] == Scaled(ReadAt(channels[channel], loop, playPosition, i), gain)
        {
          var position := playPosition + sample;
          var value := 0.0;
          if loop {
            value := channels[channel][position % numSamples];
          } else if sample < availableSamples {
            value := channels[channel][position];
          }
          inputBuffer[channel, sample] := value * gain;
        }
      }
    }
  }

  // ----- the reference: one endless stream -----

  /** Sample `k` of the buffer repeated for ever, or of the buffer followed by silence. */
  function Stream(data: Buffer, loop: bool, k: nat): Sample {
    if data == [] then 0.0
    else if loop then data[k % |data|]
    else if k < |data| then data[k]
    else 0.0
  }

  /** The stream as it is heard, behind `delay` samples of silence. */
  function Delayed(data: Buffer, loop: bool, gain: Sample, delay: nat): nat -> Sample {
    (k: nat) => if k < delay then 0.0 else Scaled(Stream(data, loop, k - delay), gain)
  }

  /** `s` is the part of the endless `stream` that starts at `from`. */
  predicate PartOf(s: seq<Sample>, stream: nat -> Sample, from: nat) {
    forall i :: 0 <= i < |s| ==> s[i] == stream(from + i)
  }

  lemma PartsJoin(a: seq<Sample>, b: seq<Sample>, stream: nat -> Sample, from: nat)
    requires PartOf(a, stream, from) && PartOf(b, stream, from + |a|)
    ensures PartOf(a + b, stream, from)
  {
  }

  function Silence(count: nat): (s: seq<Sample>)
    ensures |s| == count && forall i :: 0 <= i < count ==> s[i] == 0.0
  {
    seq(count, (i: nat) => 0.0)
  }

  /** What is heard of one channel in one callback; a playback that is passed over is silent. */
  function HeardNow(data: Buffer, loop: bool, gain: Sample, c: Cursor, count: nat): (s: seq<Sample>)
    ensures |s| == count
  {
    match Produce(data, loop, gain, c, count)
    case None => Silence(count)
    case Some(s) => s
  }

  /** What is heard over a series of callbacks. */
  function Heard(data: Buffer, loop: bool, gain: Sample, c: Cursor, frames: seq<nat>): (s: seq<Sample>)
    ensures |s| == Total(frames)
    decreases |frames|
  {
    if frames == [] then []
    else
      HeardNow(data, loop, gain, c, frames[0])
      + Heard(data, loop, gain, Advance(|data|, loop, c, frames[0]), frames[1..])
  }

  function Total(frames: seq<nat>): nat {
    if frames == [] then 0 else frames[0] + Total(frames[1..])
  }

  function Reached(length: nat, loop: bool, c: Cursor, frames: seq<nat>): Cursor
    decreases |frames|
  {
    if frames == [] then c else Reached(length, loop, Advance(length, loop, c, frames[0]), frames[1..])
  }

  /** The cursor after `k` samples of the stream have been played. */
  predicate Played(length: nat, loop: bool, c: Cursor, k: nat) {
    && c.delay == 0
    && if length == 0 then true
       else if loop then c.position == k % length
       else if k < length then c.position == k
       else c.position >= length
  }

  lemma ModUnique(y: nat, n: nat, q: int, r: nat)
    requires y == n * q + r && r < n
    ensures y % n == r
  {
    var d := q - y / n;
    assert n * d == y % n - r by {
      assert y == n * (y / n) + y % n;
      assert n * q - n * (y / n) == n * d;
    }
    assert d >= 1 ==> n * d >= n;
    assert d <= -1 ==> n * d <= -1 * n;
  }

  lemma ModPlus(a: nat, b: nat, n: nat)
    requires n > 0
    ensures (a % n + b) % n == (a + b) % n
  {
    var x := a % n + b;
    assert a + b == n * (a / n + x / n) + x % n by {
      assert a == n * (a / n) + a % n && x == n * (x / n) + x % n;
      assert n * (a / n + x / n) == n * (a / n) + n * (x / n);
    }
    ModUnique(a + b, n, a / n + x / n, x % n);
  }

  lemma SampleIsStream(data: Buffer, loop: bool, position: nat, k: nat, i: nat)
    requires Played(|data|, loop, Cursor(0, position), k) && position < |data|
    ensures ReadAt(data, loop, position, i) == Stream(data, loop, k + i)
  {
    if loop {
      ModPlus(k, i, |data|);
    }
  }

  lemma AdvancePlayed(length: nat, loop: bool, c: Cursor, k: nat, count: nat)
    requires Played(length, loop, c, k)
    ensures Played(length, loop, Advance(length, loop, c, count), k + count)
  {
    if length > 0 && loop {
      ModPlus(k, count, length);
      if c.position + count < length {
        ModUnique(c.position + count, length, 0, c.position + count);
      }
    }
  }

  lemma SilentPlayed(data: Buffer, loop: bool, c: Cursor, k: nat)
    requires Played(|data|, loop, c, k) && PassedOver(|data|, c)
    ensures forall i :: k <= i ==> Stream(data, loop, i) == 0.0
  {
  }

  lemma FramePlays(data: Buffer, loop: bool, gain: Sample, c: Cursor, k: nat, count: nat)
    requires Played(|data|, loop, c, k)
    ensures PartOf(HeardNow(data, loop, gain, c, count), Delayed(data, loop, gain, 0), k)
  {
    var now, stream := HeardNow(data, loop, gain, c, count), Delayed(data, loop, gain, 0);
    if PassedOver(|data|, c) {
      SilentPlayed(data, loop, c, k);
      assert Scaled(0.0, gain) == 0.0;
    } else {
      forall i | 0 <= i < count ensures now[i] == stream(k + i) {
        SampleIsStream(data, loop, c.position, k, i);
      }
    }
  }

  lemma {:induction false} HeardIsStream(data: Buffer, loop: bool, gain: Sample, c: Cursor, k: nat, frames: seq<nat>)
    requires Played(|data|, loop, c, k)
    ensures PartOf(Heard(data, loop, gain, c, frames), Delayed(data, loop, gain, 0), k)
    ensures Played(|data|, loop, Reached(|data|, loop, c, frames), k + Total(frames))
    decreases |frames|
  {
    if frames != [] {
      var next := Advance(|data|, loop, c, frames[0]);
      FramePlays(data, loop, gain, c, k, frames[0]);
      AdvancePlayed(|data|, loop, c, k, frames[0]);
      HeardIsStream(data, loop, gain, next, k + frames[0], frames[1..]);
      PartsJoin(HeardNow(data, loop, gain, c, frames[0]), Heard(data, loop, gain, next, frames[1..]),
                Delayed(data, loop, gain, 0), k);
    }
  }

  /** Whatever the frame sizes, what is heard is the start of one stream: the buffer repeated when looping, the buffer
      and then silence otherwise; and the position of a looping playback stays inside the buffer between callbacks. */
  lemma FrameSizesDoNotMatter(data: Buffer, loop: bool, gain: Sample, frames: seq<nat>)
    ensures var heard := Heard(data, loop, gain, Cursor(0, 0), frames);
      |heard| == Total(frames) && forall i :: 0 <= i < |heard| ==> heard[i] == Scaled(Stream(data, loop, i), gain)
    ensures loop && data != [] ==> Reached(|data|, loop, Cursor(0, 0), frames).position < |data|
  {
    HeardIsStream(data, loop, gain, Cursor(0, 0), 0, frames);
    var heard, stream := Heard(data, loop, gain, Cursor(0, 0), frames), Delayed(data, loop, gain, 0);
    forall i | 0 <= i < |heard| ensures heard[i] == Scaled(Stream(data, loop, i), gain) {
      assert heard[i] == stream(0 + i);
    }
  }

  // ----- playbacks that start later -----

  /** Some callback boundary falls exactly on the end of the delay, or the delay is not over yet. */
  predicate Lands(delay: nat, frames: seq<nat>)
    decreases |frames|
  {
    delay == 0 || frames == [] || (frames[0] <= delay && Lands(delay - frames[0], frames[1..]))
  }

  lemma SilenceIsDelay(data: Buffer, loop: bool, gain: Sample, delay: nat, count: nat, rest: seq<Sample>)
    requires count <= delay && PartOf(rest, Delayed(data, loop, gain, delay - count), 0)
    ensures PartOf(Silence(count) + rest, Delayed(data, loop, gain, delay), 0)
  {
    var later, stream := Delayed(data, loop, gain, delay - count), Delayed(data, loop, gain, delay);
    forall i | 0 <= i < |rest| ensures rest[i] == stream(count + i) {
      assert rest[i] == later(0 + i);
    }
    PartsJoin(Silence(count), rest, stream, 0);
  }

  lemma {:induction false} LandingIsDelayed(data: Buffer, loop: bool, gain: Sample, delay: nat, frames: seq<nat>)
    requires delay < U64 && Lands(delay, frames)
    ensures PartOf(Heard(data, loop, gain, Cursor(delay, 0), frames), Delayed(data, loop, gain, delay), 0)
    decreases |frames|
  {
    if delay == 0 {
      HeardIsStream(data, loop, gain, Cursor(0, 0), 0, frames);
    } else if frames != [] {
      LandingIsDelayed(data, loop, gain, delay - frames[0], frames[1..]);
      assert Advance(|data|, loop, Cursor(delay, 0), frames[0]) == Cursor(delay - frames[0], 0);
      var later := Heard(data, loop, gain, Cursor(delay - frames[0], 0), frames[1..]);
      SilenceIsDelay(data, loop, gain, delay, frames[0], later);
    }
  }

  predicate Silent(s: seq<Sample>) {
    forall i :: 0 <= i < |s| ==> s[i] == 0.0
  }

  /** A delay that is not over keeps the playback silent. */
  lemma {:induction false} DelayIsSilent(data: Buffer, loop: bool, gain: Sample, delay: nat, frames: seq<nat>)
    requires Total(frames) < delay < U64
    ensures Silent(Heard(data, loop, gain, Cursor(delay, 0), frames))
    decreases |frames|
  {
    if frames != [] {
      assert Advance(|data|, loop, Cursor(delay, 0), frames[0]) == Cursor(delay - frames[0], 0);
      DelayIsSilent(data, loop, gain, delay - frames[0], frames[1..]);
    }
  }

  /** Once a callback oversteps the delay, the 64-bit counter wraps and the playback stays silent. */
  lemma {:induction false} NotLandingIsSilent(data: Buffer, loop: bool, gain: Sample, delay: nat, frames: seq<nat>)
    requires delay + Total(frames) < U64 && !Lands(delay, frames)
    ensures Total(frames) > delay && Silent(Heard(data, loop, gain, Cursor(delay, 0), frames))
    decreases |frames|
  {
    if frames[0] <= delay {
      assert Advance(|data|, loop, Cursor(delay, 0), frames[0]) == Cursor(delay - frames[0], 0);
      NotLandingIsSilent(data, loop, gain, delay - frames[0], frames[1..]);
    } else {
      assert Advance(|data|, loop, Cursor(delay, 0), frames[0]) == Cursor(delay - frames[0] + U64, 0);
      DelayIsSilent(data, loop, gain, delay - frames[0] + U64, frames[1..]);
    }
  }

  /** The failing side is not empty: with a delay of three samples and a callback of four, nothing is ever heard. */
  lemma OversteppedDelayIsSilent(gain: Sample)
    requires gain != 0.0
    ensures var heard := Heard([1.0], true, gain, Cursor(3, 0), [4, 4]);
      && heard == Silence(8) && Delayed([1.0], true, gain, 3)(3) == gain != heard[3]
  {
    var heard := Heard([1.0], true, gain, Cursor(3, 0), [4, 4]);
    NotLandingIsSilent([1.0], true, gain, 3, [4, 4]);
    assert Total([4, 4]) == 4 + Total([4]) == 8 + Total([]);
  }

  /** A playback with a delay, whose first sample is audible, is heard exactly that much later if and only if a callback
      boundary falls on the end of the delay; otherwise the unsigned delay wraps around and it is not heard at all. */
  lemma DelayIsExact(data: Buffer, loop: bool, gain: Sample, delay: nat, frames: seq<nat>)
    requires delay + Total(frames) < U64 && Scaled(Stream(data, loop, 0), gain) != 0.0
    ensures Lands(delay, frames) <==>
      PartOf(Heard(data, loop, gain, Cursor(delay, 0), frames), Delayed(data, loop, gain, delay), 0)
    ensures !Lands(delay, frames) ==> Silent(Heard(data, loop, gain, Cursor(delay, 0), frames))
  {
    if Lands(delay, frames) {
      LandingIsDelayed(data, loop, gain, delay, frames);
    } else {
      NotLandingIsSilent(data, loop, gain, delay, frames);
      var heard, stream := Heard(data, loop, gain, Cursor(delay, 0), frames), Delayed(data, loop, gain, delay);
      assert heard[delay] == 0.0 != stream(0 + delay);
    }
  }
}
