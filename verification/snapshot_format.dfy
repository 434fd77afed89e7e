/**
 * The whole `.snap` archive as `save` writes it and `load` reads it: the
 * global state, then the control state, then the memory element count.
 * Memory bytes travel separately, in the `.bin` diff logs.
 */
module SnapshotFormat {
  import opened Wrappers
  import opened Scalars
  import opened Archive
  import opened PointerResolver
  import opened ControlState
  import opened GlobalState
  import opened DiffLog
  import opened Memory

  /** What `load` reads back: globals, the control state and ElemNum. */
  datatype SnapshotImage = SnapshotImage(globals: seq<Value>, stack: StackImage, elemNum: nat)

  /** The tokens of `save_global`, `save_stack` and `save_memory`, in that order. */
  function EncodeSnapshot(globals: seq<Value>, values: seq<Value>, frames: seq<Frame>, pc: u64,
                          starts: seq<u64>, elemNum: u64): (r: Result<Tokens, SaveError>)
    ensures r.Err? <==> EncodeStack(values, frames, pc, starts).Err?
  {
    match EncodeStack(values, frames, pc, starts)
    case Err(e) => Err(e)
    case Ok(st) => Ok(EncodeGlobals(globals) + st + [elemNum])
  }

  /** The reads of `load_global` and `load_stack`, in that order. */
  function DecodeState(toks: Tokens, starts: seq<u64>, liveGlobals: nat)
    : (r: Result<(seq<Value>, StackImage, Tokens), LoadError>)
    ensures r.Ok? ==> |r.value.0| <= liveGlobals && r.value.1.func < |starts|
  {
    match DecodeGlobals(toks, liveGlobals)
    case Err(e) => Err(e)
    case Ok((gs, t1)) =>
      match DecodeStack(t1, starts)
      case Err(e) => Err(e)
      case Ok((st, t2)) => Ok((gs, st, t2))
  }

  /** The reads of `load_global`, `load_stack` and `load_memory`, in that order. */
  function DecodeSnapshot(toks: Tokens, starts: seq<u64>, liveGlobals: nat): (r: Result<SnapshotImage, LoadError>)
    ensures r.Ok? ==> |r.value.globals| <= liveGlobals && r.value.stack.func < |starts|
    ensures r.Ok? ==> r.value.elemNum < U64_BOUND
  {
    match DecodeState(toks, starts, liveGlobals)
    case Err(e) => Err(e)
    case Ok((gs, st, t2)) =>
      match ReadField(t2, U64_BOUND)
      case Err(e) => Err(e)
      case Ok((n, _)) => Ok(SnapshotImage(gs, st, n))
  }

  /**
   * Round trip of the archive into a module with the same function table and
   * at least as many globals: globals and operand values come back as their
   * low 64 bits and in order, frames 2 and up come back unchanged, the PC
   * comes back with its function, and the element count comes back as saved.
   */
  lemma SnapshotRoundTrip(globals: seq<Value>, values: seq<Value>, frames: seq<Frame>, pc: u64,
                          starts: seq<u64>, elemNum: u64, liveGlobals: nat, rest: Tokens)
    requires |globals| < U32_BOUND && |globals| <= liveGlobals && |starts| <= U32_BOUND
    requires EncodeSnapshot(globals, values, frames, pc, starts, elemNum).Ok?
    ensures DecodeSnapshot(EncodeSnapshot(globals, values, frames, pc, starts, elemNum).value + rest, starts, liveGlobals)
            == Ok(SnapshotImage(
                 LowBits(globals),
                 StackImage(LowBits(values[..Truncate32(|values|)]), PersistedFrames(frames), pc, Resolve(starts, pc).value),
                 elemNum))
  {
    var gt := EncodeGlobals(globals);
    var st := EncodeStack(values, frames, pc, starts).value;
    assert EncodeSnapshot(globals, values, frames, pc, starts, elemNum).value + rest
           == gt + (st + ([elemNum] + rest));
    GlobalsRoundTrip(globals, liveGlobals, st + ([elemNum] + rest));
    StackRoundTrip(values, frames, pc, starts, [elemNum] + rest);
    ReadFieldCons(elemNum, rest, U64_BOUND);
  }

  /**
   * Restoring memory in a fresh process: into a memory of `pages` zeroed
   * pages, growing to hold the latest image and replaying the logs of every
   * save in order leaves the latest image in front and zeros behind it, and
   * the baseline re-seeded from it is the one the saving process held.
   */
  lemma RestoreReproducesLatest(images: seq<seq<bv8>>, bytes: seq<bv8>, pages: nat)
    requires images != [] && Growing(images)
    requires |bytes| == pages * PageSize
    requires forall i :: 0 <= i < |bytes| ==> bytes[i] == 0
    ensures var n := |Latest(images)|;
      var restored := ReplayAll(Grown(bytes, pages, n), n, SaveLogs(images));
      && restored[..n] == Latest(images)
      && (forall i :: n <= i < |restored| ==> restored[i] == 0)
      && (n > 0 ==> Some(restored[..n]) == BaselineAfter(images))
  {
    var n := |Latest(images)|;
    var grown := Grown(bytes, pages, n);
    forall k | 0 <= k < |images|
      ensures |images[k]| <= n
    {
      if k < |images| - 1 {
        assert |images[k]| <= |images[|images| - 1]|;
      }
    }
    CumulativeReplay(images, n, grown);
  }

  /**
   * End-to-end scenario, function table: with functions starting at 100, 150
   * and 200, position 205 belongs to function 2 at offset 5 and position 120
   * to function 0.
   */
  lemma ScenarioPointers(starts: seq<u64>)
    requires starts == [100, 150, 200]
    ensures Resolve(starts, 205) == Some(2) && SavePointer(starts, 2, 205) == (2, 5)
    ensures Resolve(starts, 120) == Some(0)
  {
    assert starts[0] == 100 && starts[1] == 150 && starts[2] == 200;
    ResolveIsGreatestStart(starts, 205);
    ResolveIsGreatestStart(starts, 120);
  }

  /**
   * End-to-end scenario, archive part: operand stack [1, 2]; one frame above
   * the two sentinels with Locals 1, Arity 0, VPos 0 returning to position
   * 205; PC 120; one global 42; one page of memory. The archive reads back to
   * the same state.
   */
  lemma ScenarioArchive(starts: seq<u64>, frames: seq<Frame>, values: seq<Value>, globals: seq<Value>)
    requires starts == [100, 150, 200]
    requires frames == [Frame(0, 0, 0, 0), Frame(0, 0, 0, 0), Frame(1, 0, 0, 205)]
    requires values == [1, 2] && globals == [42]
    ensures var toks := EncodeSnapshot(globals, values, frames, 120, starts, PageSize);
      && toks.Ok?
      && DecodeSnapshot(toks.value, starts, 1)
         == Ok(SnapshotImage(globals, StackImage(values, [frames[2]], 120, 0), PageSize))
  {
    LowBitsKeepsNarrow(values);
    LowBitsKeepsNarrow(globals);
    assert values[..2] == values;
    ScenarioPointers(starts);
    assert PersistedFrames(frames) == [frames[2]];
    EncodeFramesFails(starts, [frames[2]]);
    SaveStackFails(values, frames, 120, starts);
    SnapshotRoundTrip(globals, values, frames, 120, starts, PageSize, 1, []);
    var toks := EncodeSnapshot(globals, values, frames, 120, starts, PageSize).value;
    assert toks + [] == toks;
  }

  /**
   * End-to-end scenario, memory part: the first save of one all-zero page
   * writes no record, and replaying that empty log leaves the page zero.
   */
  lemma ScenarioMemory()
    ensures Diff(None, Zeros(PageSize)) == []
    ensures ReplayAll(Zeros(PageSize), PageSize, SaveLogs([Zeros(PageSize)])) == Zeros(PageSize)
  {
    FirstSaveIsSparse(Zeros(PageSize));
    assert SaveLogs([Zeros(PageSize)]) == [[]] by {
      assert [Zeros(PageSize)][..0] == [];
    }
    var logs: seq<Log> := [[]];
    assert logs[..0] == [];
  }

  /**
   * Replay does not clear the memory it restores into: a byte that
   * instantiation left non-zero, where the saved image holds zero, is not
   * named by the sparse first log and survives the restore.
   */
  lemma ReplayKeepsInitialBytes(dirty: seq<bv8>)
    requires dirty == Zeros(PageSize)[0 := 1]
    ensures ReplayAll(dirty, PageSize, SaveLogs([Zeros(PageSize)]))[0] == 1
    ensures ReplayAll(dirty, PageSize, SaveLogs([Zeros(PageSize)]))[..PageSize] != Latest([Zeros(PageSize)])
  {
    FirstSaveIsSparse(Zeros(PageSize));
    assert SaveLogs([Zeros(PageSize)]) == [[]] by {
      assert [Zeros(PageSize)][..0] == [];
    }
    var logs: seq<Log> := [[]];
    assert logs[..0] == [];
    assert dirty[..PageSize] == dirty;
  }
}
