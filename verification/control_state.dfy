/**
 * The control-state part of the archive: `save_stack` / `load_stack`.
 * Layout: the operand-stack size, each value's low 64 bits, the frame-stack
 * size (sentinel frames 0 and 1 included), then for every frame from index 2
 * upward its Locals, Arity, VPos and return point as (FuncId, offset), and
 * last the program counter as (FuncId, offset).
 */
module ControlState {
  import opened Wrappers
  import opened Scalars
  import opened Archive
  import opened PointerResolver

  /** A call frame; `from` is the return point in the caller. */
  datatype Frame = Frame(locals: u32, arity: u32, vpos: u32, from: u64)

  /** The two `runtime_error`s `save_stack` throws. */
  datatype SaveError =
    | FramePointerNotFound(frameIndex: nat) // "Frame pointer error: Function not found"
    | PcNotFound                            // "PC error: Function not found"

  /** What `load_stack` restores: values, appended frames, the PC and its function. */
  datatype StackImage = StackImage(values: seq<Value>, frames: seq<Frame>, pc: u64, func: nat)

  /** The upper_bound lookup followed by `save_pointer`; None where the source throws. */
  function EncodePointer(starts: seq<u64>, p: u64): (t: Option<Tokens>)
    ensures t.Some? <==> Resolve(starts, p).Some?
    ensures t.Some? ==> |t.value| == 2
  {
    match Resolve(starts, p)
    case None => None
    case Some(f) =>
      var ptr := SavePointer(starts, f, p);
      Some([ptr.0, ptr.1])
  }

  /** The second `load_pointer`: reads a FuncId and an offset and rebuilds the position. */
  function DecodePointer(toks: Tokens, starts: seq<u64>): (r: Result<((nat, u64), Tokens), LoadError>)
    ensures r.Ok? ==> r.value.0.0 < |starts| && |r.value.1| + 2 == |toks|
  {
    match ReadField(toks, U32_BOUND)
    case Err(e) => Err(e)
    case Ok((f, rest)) =>
      match ReadField(rest, U64_BOUND)
      case Err(e) => Err(e)
      case Ok((offset, rest')) =>
        match LoadPointer(starts, f, offset)
        case None => Err(UnknownFunction(f))
        case Some(p) => Ok(((f, p), rest'))
  }

  /** A resolved position read back after being written is the same position. */
  lemma PointerTokensRoundTrip(starts: seq<u64>, p: u64, rest: Tokens)
    requires |starts| <= U32_BOUND
    requires Resolve(starts, p).Some?
    ensures DecodePointer(EncodePointer(starts, p).value + rest, starts)
            == Ok(((Resolve(starts, p).value, p), rest))
  {
    var ptr := SavePointer(starts, Resolve(starts, p).value, p);
    assert EncodePointer(starts, p).value + rest == [ptr.0] + ([ptr.1] + rest);
    ReadFieldCons(ptr.0, [ptr.1] + rest, U32_BOUND);
    ReadFieldCons(ptr.1, rest, U64_BOUND);
  }

  /** `OA << Locals << Arity << VPos` and the return point of one frame. */
  function EncodeFrame(starts: seq<u64>, fr: Frame): (t: Option<Tokens>)
    ensures t.Some? <==> Resolve(starts, fr.from).Some?
    ensures t.Some? ==> |t.value| == 5
  {
    match EncodePointer(starts, fr.from)
    case None => None
    case Some(pt) => Some([fr.locals, fr.arity, fr.vpos] + pt)
  }

  /** One iteration of the frame loop of `load_stack`. */
  function DecodeFrame(toks: Tokens, starts: seq<u64>): (r: Result<(Frame, Tokens), LoadError>)
    ensures r.Ok? ==> |r.value.1| + 5 == |toks|
  {
    match ReadField(toks, U32_BOUND)
    case Err(e) => Err(e)
    case Ok((locals, t1)) =>
      match ReadField(t1, U32_BOUND)
      case Err(e) => Err(e)
      case Ok((arity, t2)) =>
        match ReadField(t2, U32_BOUND)
        case Err(e) => Err(e)
        case Ok((vpos, t3)) =>
          match DecodePointer(t3, starts)
          case Err(e) => Err(e)
          case Ok(((_, from), t4)) => Ok((Frame(locals, arity, vpos, from), t4))
  }

  /** Reading a frame whose three counts are in front of `pt`. */
  lemma DecodeFrameCons(locals: u32, arity: u32, vpos: u32, pt: Tokens, starts: seq<u64>)
    ensures DecodeFrame([locals, arity, vpos] + pt, starts) ==
      match DecodePointer(pt, starts)
      case Err(e) => Err(e)
      case Ok(((_, from), rest)) => Ok((Frame(locals, arity, vpos, from), rest))
  {
    assert [locals, arity, vpos] + pt == [locals] + ([arity] + ([vpos] + pt));
    ReadFieldCons(locals, [arity] + ([vpos] + pt), U32_BOUND);
    ReadFieldCons(arity, [vpos] + pt, U32_BOUND);
    ReadFieldCons(vpos, pt, U32_BOUND);
  }

  /** A frame read back after being written is the same frame. */
  lemma FrameRoundTrip(starts: seq<u64>, fr: Frame, rest: Tokens)
    requires |starts| <= U32_BOUND
    requires Resolve(starts, fr.from).Some?
    ensures DecodeFrame(EncodeFrame(starts, fr).value + rest, starts) == Ok((fr, rest))
  {
    var pt := EncodePointer(starts, fr.from).value;
    assert EncodeFrame(starts, fr).value + rest == [fr.locals, fr.arity, fr.vpos] + (pt + rest);
    PointerTokensRoundTrip(starts, fr.from, rest);
    DecodeFrameCons(fr.locals, fr.arity, fr.vpos, pt + rest, starts);
  }

  /**
   * The frames written in order; on failure, the index (within `frames`) of
   * the first frame whose return point lies before every function.
   */
  function EncodeFrames(starts: seq<u64>, frames: seq<Frame>): (r: Result<Tokens, nat>)
    ensures r.Ok? ==> |r.value| == 5 * |frames|
    ensures r.Err? ==> r.error < |frames|
  {
    if frames == [] then Ok([])
    else
      match EncodeFrame(starts, frames[0])
      case None => Err(0)
      case Some(t) =>
        match EncodeFrames(starts, frames[1..])
        case Err(i) => Err(i + 1)
        case Ok(t') => Ok(t + t')
  }

  /**
   * Writing the frames fails exactly when some return point lies before every
   * function, and then names the first such frame.
   */
  lemma {:induction false} EncodeFramesFails(starts: seq<u64>, frames: seq<Frame>)
    ensures var r := EncodeFrames(starts, frames);
      && (r.Ok? <==> forall i :: 0 <= i < |frames| ==> Resolve(starts, frames[i].from).Some?)
      && (r.Err? ==> r.error < |frames| && Resolve(starts, frames[r.error].from).None?)
      && (r.Err? ==> forall i :: 0 <= i < r.error ==> Resolve(starts, frames[i].from).Some?)
  {
    if frames != [] {
      EncodeFramesFails(starts, frames[1..]);
      assert forall i :: 1 <= i < |frames| ==> frames[1..][i - 1] == frames[i];
    }
  }

  /** Writing stops at the first frame whose return point lies before every function. */
  lemma EncodeFramesFirstFailure(starts: seq<u64>, frames: seq<Frame>, k: nat)
    requires k < |frames|
    requires EncodeFrames(starts, frames[..k]).Ok?
    requires Resolve(starts, frames[k].from).None?
    ensures EncodeFrames(starts, frames) == Err(k)
  {
    EncodeFramesFails(starts, frames[..k]);
    EncodeFramesFails(starts, frames);
    assert forall i :: 0 <= i < k ==> frames[..k][i] == frames[i];
  }

  /** Writing one frame more appends its tokens. */
  lemma {:induction false} EncodeFramesSnoc(starts: seq<u64>, frames: seq<Frame>, fr: Frame)
    requires EncodeFrames(starts, frames).Ok?
    ensures EncodeFrames(starts, frames + [fr]) ==
            match EncodeFrame(starts, fr)
            case None => Err(|frames|)
            case Some(t) => Ok(EncodeFrames(starts, frames).value + t)
  {
    if frames == [] {
      assert frames + [fr] == [fr];
      assert [fr][1..] == [];
      if EncodeFrame(starts, fr).Some? {
        var t := EncodeFrame(starts, fr).value;
        assert EncodeFrames(starts, [fr]) == Ok(t + []);
        assert t + [] == t && [] + t == t;
      }
    } else {
      var t0 := EncodeFrame(starts, frames[0]).value;
      assert (frames + [fr])[0] == frames[0];
      assert (frames + [fr])[1..] == frames[1..] + [fr];
      EncodeFramesSnoc(starts, frames[1..], fr);
      var t1 := EncodeFrames(starts, frames[1..]).value;
      assert EncodeFrames(starts, frames).value == t0 + t1;
      if EncodeFrame(starts, fr).Some? {
        var t := EncodeFrame(starts, fr).value;
        assert t0 + (t1 + t) == (t0 + t1) + t;
      }
    }
  }

  /**
   * `n` iterations of the frame loop of `load_stack`, each frame read pushed
   * after those in `pushed`; the result is the whole pushed sequence.
   */
  function DecodeFrames(toks: Tokens, n: nat, starts: seq<u64>, pushed: seq<Frame>): (r: Result<(seq<Frame>, Tokens), LoadError>)
    ensures r.Ok? ==> |r.value.0| == |pushed| + n && r.value.0[..|pushed|] == pushed
    decreases n
  {
    if n == 0 then Ok((pushed, toks))
    else
      match DecodeFrame(toks, starts)
      case Err(e) => Err(e)
      case Ok((fr, rest)) => DecodeFrames(rest, n - 1, starts, pushed + [fr])
  }

  /** Reading frames from a stream that starts with a written frame reads that frame first. */
  lemma DecodeFramesAfterFrame(starts: seq<u64>, fr: Frame, tail: Tokens, n: nat, pushed: seq<Frame>)
    requires |starts| <= U32_BOUND && n > 0
    requires Resolve(starts, fr.from).Some?
    ensures DecodeFrames(EncodeFrame(starts, fr).value + tail, n, starts, pushed)
            == DecodeFrames(tail, n - 1, starts, pushed + [fr])
  {
    FrameRoundTrip(starts, fr, tail);
  }

  /** Frames written in order are read back in order, after those already pushed. */
  lemma {:induction false} FramesRoundTrip(starts: seq<u64>, frames: seq<Frame>, rest: Tokens, pushed: seq<Frame>)
    requires |starts| <= U32_BOUND
    requires EncodeFrames(starts, frames).Ok?
    ensures DecodeFrames(EncodeFrames(starts, frames).value + rest, |frames|, starts, pushed) == Ok((pushed + frames, rest))
    decreases |frames|
  {
    if frames == [] {
      assert EncodeFrames(starts, frames).value + rest == rest;
      assert pushed + frames == pushed;
    } else {
      var t := EncodeFrame(starts, frames[0]).value;
      var t' := EncodeFrames(starts, frames[1..]).value;
      assert EncodeFrames(starts, frames).value + rest == t + (t' + rest);
      DecodeFramesAfterFrame(starts, frames[0], t' + rest, |frames|, pushed);
      FramesRoundTrip(starts, frames[1..], rest, pushed + [frames[0]]);
      assert (pushed + [frames[0]]) + frames[1..] == pushed + frames;
    }
  }

  /** The frames `save_stack` writes: indices 2 up to the (32-bit) frame count. */
  function PersistedFrames(frames: seq<Frame>): (r: seq<Frame>)
    ensures |frames| < U32_BOUND ==> r == if |frames| <= 2 then [] else frames[2..]
  {
    var n := Truncate32(|frames|);
    if n <= 2 then [] else frames[2..n]
  }

  /** The number of frames `load_stack` appends for a recorded frame count. */
  function FramesToLoad(count: nat): (n: nat)
    ensures n == 0 <==> count <= 2
    ensures n > 0 ==> n + 2 == count
  {
    if count <= 2 then 0 else count - 2
  }

  /** The tokens `save_stack` writes, or the error it throws. */
  function EncodeStack(values: seq<Value>, frames: seq<Frame>, pc: u64, starts: seq<u64>): (r: Result<Tokens, SaveError>)
    ensures r.Ok? ==> |r.value| == 1 + Truncate32(|values|) + 1 + 5 * |PersistedFrames(frames)| + 2
    ensures r.Ok? ==> r.value[0] == Truncate32(|values|) && r.value[1 + Truncate32(|values|)] == Truncate32(|frames|)
  {
    var n := Truncate32(|values|);
    var head := [n] + EncodeValues(values[..n]) + [Truncate32(|frames|)];
    match EncodeFrames(starts, PersistedFrames(frames))
    case Err(i) => Err(FramePointerNotFound(i + 2))
    case Ok(ft) =>
      match EncodePointer(starts, pc)
      case None => Err(PcNotFound)
      case Some(pt) => Ok(head + ft + pt)
  }

  /**
   * `save_stack` throws exactly when a persisted frame's return point or the
   * PC lies before every function; a frame error names the frame's index in
   * the frame stack, and frame errors come before the PC error.
   */
  lemma SaveStackFails(values: seq<Value>, frames: seq<Frame>, pc: u64, starts: seq<u64>)
    ensures var r := EncodeStack(values, frames, pc, starts);
      var persisted := PersistedFrames(frames);
      && (r.Err? <==>
           (exists i :: 0 <= i < |persisted| && Resolve(starts, persisted[i].from).None?)
           || Resolve(starts, pc).None?)
      && (r == Err(PcNotFound) ==> forall i :: 0 <= i < |persisted| ==> Resolve(starts, persisted[i].from).Some?)
      && (r.Err? && r.error.FramePointerNotFound? ==>
           2 <= r.error.frameIndex < 2 + |persisted| && Resolve(starts, persisted[r.error.frameIndex - 2].from).None?)
  {
    EncodeFramesFails(starts, PersistedFrames(frames));
  }

  /** The reads `load_stack` performs, in order. */
  function DecodeStack(toks: Tokens, starts: seq<u64>): (r: Result<(StackImage, Tokens), LoadError>)
    ensures r.Ok? ==> r.value.0.func < |starts|
  {
    match ReadField(toks, U32_BOUND)
    case Err(e) => Err(e)
    case Ok((n, t1)) =>
      match DecodeValues(t1, n, [])
      case Err(e) => Err(e)
      case Ok((values, t2)) =>
        match ReadField(t2, U32_BOUND)
        case Err(e) => Err(e)
        case Ok((count, t3)) =>
          match DecodeFrames(t3, FramesToLoad(count), starts, [])
          case Err(e) => Err(e)
          case Ok((frames, t4)) =>
            match DecodePointer(t4, starts)
            case Err(e) => Err(e)
            case Ok(((f, pc), t5)) => Ok((StackImage(values, frames, pc, f), t5))
  }

  /** `load_stack` succeeds when each of its five reads does, in turn. */
  lemma DecodeStackReads(toks: Tokens, starts: seq<u64>, n: nat, t1: Tokens, values: seq<Value>, t2: Tokens,
                         count: nat, t3: Tokens, frames: seq<Frame>, t4: Tokens, f: nat, pc: u64, rest: Tokens)
    requires ReadField(toks, U32_BOUND) == Ok((n, t1))
    requires DecodeValues(t1, n, []) == Ok((values, t2))
    requires ReadField(t2, U32_BOUND) == Ok((count, t3))
    requires DecodeFrames(t3, FramesToLoad(count), starts, []) == Ok((frames, t4))
    requires DecodePointer(t4, starts) == Ok(((f, pc), rest))
    ensures DecodeStack(toks, starts) == Ok((StackImage(values, frames, pc, f), rest))
  {
  }

  /**
   * Round trip of the control state: the operand stack comes back as its low
   * 64 bits, frames 2 and up come back unchanged and in order, and the PC
   * comes back with the function that contains it.
   */
  lemma StackRoundTrip(values: seq<Value>, frames: seq<Frame>, pc: u64, starts: seq<u64>, rest: Tokens)
    requires |starts| <= U32_BOUND
    requires EncodeStack(values, frames, pc, starts).Ok?
    ensures var n := Truncate32(|values|);
            DecodeStack(EncodeStack(values, frames, pc, starts).value + rest, starts)
            == Ok((StackImage(LowBits(values[..n]), PersistedFrames(frames), pc, Resolve(starts, pc).value), rest))
  {
    var n := Truncate32(|values|);
    var persisted := PersistedFrames(frames);
    var count := Truncate32(|frames|);
    var vt := EncodeValues(values[..n]);
    var ft := EncodeFrames(starts, persisted).value;
    var pt := EncodePointer(starts, pc).value;
    var t4 := pt + rest;
    var t3 := ft + t4;
    var t2 := [count] + t3;
    var t1 := vt + t2;
    assert EncodeStack(values, frames, pc, starts).value + rest == [n] + t1;
    ReadFieldCons(n, t1, U32_BOUND);
    ValuesRoundTrip(values[..n], t2, []);
    assert [] + LowBits(values[..n]) == LowBits(values[..n]);
    ReadFieldCons(count, t3, U32_BOUND);
    assert FramesToLoad(count) == |persisted|;
    FramesRoundTrip(starts, persisted, t4, []);
    assert [] + persisted == persisted;
    PointerTokensRoundTrip(starts, pc, rest);
    DecodeStackReads([n] + t1, starts, n, t1, LowBits(values[..n]), t2, count, t3, persisted, t4,
                     Resolve(starts, pc).value, pc, rest);
  }
}
