/**
 * The live objects the snapshot codec reads and writes, and the codec
 * itself. `SerializationManager` keeps the diff-log baseline (`SavedData`)
 * between calls; `save` and `load` run the global, stack and memory codecs
 * in that order.
 */
module Runtime {
  import opened Wrappers
  import opened Scalars
  import opened Archive
  import opened PointerResolver
  import opened ControlState
  import opened GlobalState
  import opened DiffLog
  import opened Memory
  import opened SnapshotFormat

  /** The parts of a module instance the codec touches. */
  class ModuleInstance {
    /** `FuncInsts[f]->getInstrs().begin()` for each FuncId `f`. */
    const funcStarts: seq<u64>
    /** The global table, by declaration order. */
    const globals: array<Value>
    /** Memory 0, or null when `MemInsts` is empty. */
    var mem: MemoryInstance?

    /** Function ids fit in 32 bits, and the memory is separate from the global table. */
    ghost predicate Valid()
      reads this, mem
    {
      && |funcStarts| < U32_BOUND
      && (mem != null ==> mem.Valid() && mem.data as object != globals as object)
    }

    /** The objects holding the memory. */
    function MemRepr(): set<object>
      reads this, mem
    {
      if mem == null then {} else {mem as object, mem.data}
    }

    /** The memory's page count, 0 without a memory. */
    function Pages(): nat
      reads this, mem
    {
      if mem == null then 0 else mem.pages
    }

    /** Every byte of the memory, none without a memory. */
    function Bytes(): seq<bv8>
      reads this, mem, if mem == null then {} else {mem.data}
    {
      if mem == null then [] else mem.data[..]
    }

    /** `MemPages * kPageSize` as `save_memory` computes it in 64 bits. */
    function ElemNum(): (n: u64)
      reads this, mem
      ensures mem == null ==> n == 0
    {
      Wrap64(Pages() * PageSize)
    }

    /** The bytes `save_memory` hands to the diff: the first ElemNum bytes. */
    function Image(): (img: seq<bv8>)
      requires Valid()
      reads this, mem, if mem == null then {} else {mem.data}
      ensures |img| == ElemNum()
    {
      if mem == null then [] else mem.data[..ElemNum()]
    }

    constructor (funcStarts: seq<u64>, globals: array<Value>, mem: MemoryInstance?)
      requires |funcStarts| < U32_BOUND
      requires mem != null ==> mem.Valid() && mem.data as object != globals as object
      ensures Valid()
      ensures this.funcStarts == funcStarts && this.globals == globals && this.mem == mem
    {
      this.funcStarts := funcStarts;
      this.globals := globals;
      this.mem := mem;
    }

    /** `addMemory` as `load_memory` calls it: a new memory with no pages. */
    method AddMemory()
      requires Valid() && mem == null
      modifies this
      ensures Valid() && mem != null && fresh(mem) && mem.pages == 0 && mem.data[..] == []
    {
      mem := new MemoryInstance(0);
    }
  }

  /** The operand stack and the frame stack. */
  class StackManager {
    /** The module of the running function (`getModule()`). */
    const modInst: ModuleInstance
    var valueStack: seq<Value>
    var frameStack: seq<Frame>

    constructor (modInst: ModuleInstance, valueStack: seq<Value>, frameStack: seq<Frame>)
      ensures this.modInst == modInst && this.valueStack == valueStack && this.frameStack == frameStack
    {
      this.modInst := modInst;
      this.valueStack := valueStack;
      this.frameStack := frameStack;
    }
  }

  /** The `elemNum` bytes at `data`, where a null pointer has none. */
  function Span(data: array?<bv8>, elemNum: nat): (s: seq<bv8>)
    requires data == null ==> elemNum == 0
    requires data != null ==> elemNum <= data.Length
    reads data
    ensures |s| == elemNum
  {
    if data == null then [] else data[..elemNum]
  }

  /** The snapshot codec. */
  class SerializationManager {
    const stackMgr: StackManager
    const modInst: ModuleInstance
    /** `SavedData`: the diff-log baseline, None while it is a null pointer. */
    var savedData: Option<seq<bv8>>

    ghost predicate Valid()
      reads this, modInst, modInst.mem
    {
      modInst == stackMgr.modInst && modInst.Valid()
    }

    /** `getInstance()` on first use followed by `set_stack_manager(sm)`, which binds the module. */
    constructor (sm: StackManager)
      requires sm.modInst.Valid()
      ensures Valid() && stackMgr == sm && modInst == sm.modInst && savedData == None
    {
      stackMgr := sm;
      modInst := sm.modInst;
      savedData := None;
    }

    /**
     * `save_changes_to_file`: the log of positions below `elemNum` whose byte
     * differs from the baseline, then the baseline replaced by the image.
     * Positions beyond a shorter baseline are compared against zero.
     */
    method SaveChangesToFile(current: array?<bv8>, elemNum: u64) returns (log: Log)
      requires current == null ==> elemNum == 0
      requires current != null ==> elemNum <= current.Length
      modifies this`savedData
      ensures log == Diff(old(savedData), Span(current, elemNum))
      ensures savedData == NextBaseline(Span(current, elemNum))
    {
      ghost var image := Span(current, elemNum);
      log := [];
      var i := 0;
      while i < elemNum
        invariant i <= elemNum
        invariant log == DiffUpTo(savedData, image, i)
      {
        var b := current[i];
        if savedData.None? || b != BaselineByte(savedData, i) {
          if savedData.None? && b == 0 {
          } else {
            log := log + [Change(i, b)];
          }
        }
        i := i + 1;
      }
      if elemNum == 0 {
        savedData := None;
      } else {
        savedData := Some(current[..elemNum]);
      }
    }

    /** `load_changes_from_file`: every record with an offset below `elemNum` applied in order. */
    static method LoadChangesFromFile(data: array<bv8>, elemNum: u64, log: Log)
      requires elemNum <= data.Length
      modifies data
      ensures data[..] == Apply(old(data[..]), elemNum, log)
    {
      var k := 0;
      while k < |log|
        invariant k <= |log|
        invariant data[..] == Apply(old(data[..]), elemNum, log[..k])
      {
        assert log[..k + 1][..k] == log[..k];
        var c := log[k];
        if c.offset < elemNum {
          data[c.offset] := c.value;
        }
        k := k + 1;
      }
      assert log[..k] == log;
    }

    /**
     * `save_memory`: writes ElemNum (0 without a memory) and the diff of the
     * memory's first ElemNum bytes against the baseline; the memory itself is
     * not changed.
     */
    method SaveMemory() returns (toks: Tokens, log: Log)
      requires Valid()
      modifies this`savedData
      ensures toks == [modInst.ElemNum()]
      ensures log == Diff(old(savedData), modInst.Image())
      ensures savedData == NextBaseline(modInst.Image())
    {
      var mem := modInst.mem;
      if mem == null {
        toks := [0];
        log := SaveChangesToFile(null, 0);
        return;
      }
      var elemNum := Wrap64(mem.pages * PageSize);
      toks := [elemNum];
      log := SaveChangesToFile(mem.data, elemNum);
    }

    /**
     * The memory and baseline after `load_memory` read the count `n`, given
     * the memory (`mem0`, with `pages0` pages holding `bytes0`) and baseline
     * (`saved0`) before it. A zero count changes nothing. Otherwise the
     * memory is grown by `Growth(n, pages0)` zeroed pages, the logs are
     * replayed onto it, and the baseline is a copy of its first `n` bytes.
     */
    ghost predicate MemoryLoaded(n: nat, logs: seq<Log>, mem0: MemoryInstance?, pages0: nat, bytes0: seq<bv8>,
                                 saved0: Option<seq<bv8>>)
      reads this, modInst, modInst.mem, modInst.MemRepr()
    {
      if n == 0 then
        savedData == saved0 && modInst.mem == mem0 && modInst.Bytes() == bytes0
      else
        && |bytes0| == pages0 * PageSize
        && modInst.mem != null
        && (mem0 != null ==> modInst.mem == mem0)
        && modInst.Pages() == pages0 + Growth(n, pages0)
        && modInst.Bytes() == ReplayAll(Grown(bytes0, pages0, n), n, logs)
        && savedData == Some(modInst.Bytes()[..n])
    }

    /**
     * `load_memory`: reads ElemNum; for a non-zero count, creates a memory if
     * there is none, grows it to hold ElemNum bytes, replays the logs of
     * snapshots 1 to N (`logs`) in order, and re-seeds the baseline from the
     * replayed bytes. A zero count leaves memory and baseline alone.
     */
    method LoadMemory(toks: Tokens, logs: seq<Log>) returns (res: Result<Tokens, LoadError>)
      requires Valid()
      modifies this`savedData, modInst, modInst.MemRepr()
      ensures Valid() && unchanged(modInst.globals) && unchanged(stackMgr)
      ensures match ReadField(toks, U64_BOUND)
        case Err(e) =>
          && res == Err(e) && savedData == old(savedData)
          && modInst.mem == old(modInst.mem) && modInst.Bytes() == old(modInst.Bytes())
        case Ok((n, rest)) =>
          && res == Ok(rest)
          && MemoryLoaded(n, logs, old(modInst.mem), old(modInst.Pages()), old(modInst.Bytes()), old(savedData))
    {
      var r := ReadField(toks, U64_BOUND);
      if r.Err? {
        return Err(r.error);
      }
      res := Ok(r.value.1);
      if r.value.0 != 0 {
        RestoreMemory(r.value.0, logs);
      }
    }

    /**
     * The part of `load_memory` after a non-zero ElemNum was read: create,
     * grow, replay, re-seed the baseline.
     */
    method RestoreMemory(elemNum: u64, logs: seq<Log>)
      requires Valid() && elemNum > 0
      modifies this`savedData, modInst, modInst.MemRepr()
      ensures Valid() && unchanged(modInst.globals)
      ensures MemoryLoaded(elemNum, logs, old(modInst.mem), old(modInst.Pages()), old(modInst.Bytes()), old(savedData))
    {
      if modInst.mem == null {
        modInst.AddMemory();
      }
      var mem := modInst.mem;
      var pages := mem.pages;
      ghost var bytes0 := mem.data[..];
      ghost var grown := Grown(bytes0, pages, elemNum);
      if PagesFor(elemNum) > pages {
        mem.GrowPage(PagesFor(elemNum) - pages);
      } else {
        assert mem.data[..] == grown;
      }
      assert mem.pages == pages + Growth(elemNum, pages);
      ReplayLogs(mem.data, elemNum, logs);
      savedData := Some(mem.data[..elemNum]);
    }

    /** The replay loop of `load_memory`: the logs of snapshots 1 to N applied in order. */
    static method ReplayLogs(data: array<bv8>, elemNum: u64, logs: seq<Log>)
      requires elemNum <= data.Length
      modifies data
      ensures data[..] == ReplayAll(old(data[..]), elemNum, logs)
    {
      var k := 0;
      while k < |logs|
        invariant k <= |logs|
        invariant data[..] == ReplayAll(old(data[..]), elemNum, logs[..k])
      {
        assert logs[..k + 1][..k] == logs[..k];
        LoadChangesFromFile(data, elemNum, logs[k]);
        k := k + 1;
      }
      assert logs[..k] == logs;
    }

    /** The `save_value` loop: the first `n` values' low 64 bits, in order. */
    static method SaveValues(vs: seq<Value>, n: nat) returns (toks: Tokens)
      requires n <= |vs|
      ensures toks == EncodeValues(vs[..n])
    {
      toks := [];
      var i := 0;
      while i < n
        invariant i <= n
        invariant toks == EncodeValues(vs[..i])
      {
        assert EncodeValues(vs[..i + 1]) == EncodeValues(vs[..i]) + [SaveValue(vs[i])];
        toks := toks + [SaveValue(vs[i])];
        i := i + 1;
      }
    }

    /** `save_global`: the number of globals and each global's low 64 bits. */
    method SaveGlobal() returns (toks: Tokens)
      ensures toks == EncodeGlobals(modInst.globals[..])
    {
      var globals := modInst.globals;
      var n := Truncate32(globals.Length);
      var vt := SaveValues(globals[..], n);
      toks := [n] + vt;
    }

    /**
     * `load_global`: overwrites the first recorded-count globals, in order,
     * with the values read; the other globals keep their values. A recorded
     * count above the module's number of globals is refused before any write.
     */
    method LoadGlobal(toks: Tokens) returns (res: Result<Tokens, LoadError>)
      modifies modInst.globals
      ensures match DecodeGlobals(toks, modInst.globals.Length)
        case Ok((vs, rest)) =>
          res == Ok(rest) && modInst.globals[..] == vs + old(modInst.globals[..])[|vs|..]
        case Err(e) =>
          res == Err(e) && (e.GlobalCountMismatch? ==> modInst.globals[..] == old(modInst.globals[..]))
    {
      var globals := modInst.globals;
      var r := ReadField(toks, U32_BOUND);
      if r.Err? {
        return Err(r.error);
      }
      var n := r.value.0;
      ghost var t1 := r.value.1;
      if n > globals.Length {
        return Err(GlobalCountMismatch(n, globals.Length));
      }
      var rest := r.value.1;
      var i := 0;
      while i < n
        invariant i <= n
        invariant DecodeValues(rest, n - i, globals[..i]) == DecodeValues(t1, n, [])
        invariant globals[i..] == old(globals[..])[i..]
      {
        var f := ReadField(rest, U64_BOUND);
        if f.Err? {
          return Err(f.error);
        }
        ghost var done := globals[..i];
        var v := LoadValue(f.value.0);
        globals[i] := v;
        assert globals[..i + 1] == done + [v];
        rest := f.value.1;
        i := i + 1;
      }
      assert globals[..] == globals[..n] + globals[n..];
      res := Ok(rest);
    }
  
    /**
     * The frame loop of `save_stack`: frames 2 and up, each return point
     * located through `FuncMap`; or the index of the first frame whose
     * return point lies before every function.
     */
    static method SaveFrames(starts: seq<u64>, funcMap: map<u64, nat>, frames: seq<Frame>)
      returns (res: Result<Tokens, SaveError>)
      requires IsFuncMap(starts, funcMap)
      ensures res == match EncodeFrames(starts, PersistedFrames(frames))
                     case Ok(ft) => Ok(ft)
                     case Err(i) => Err(FramePointerNotFound(i + 2))
    {
      ghost var persisted := PersistedFrames(frames);
      var count := Truncate32(|frames|);
      var toks := [];
      var j := 2;
      while j < count
        invariant 2 <= j && (j <= count || j == 2)
        invariant j - 2 <= |persisted|
        invariant EncodeFrames(starts, persisted[..j - 2]) == Ok(toks)
      {
        var fr := frames[j];
        assert persisted[j - 2] == fr;
        assert persisted[..j - 1] == persisted[..j - 2] + [fr];
        var e := FloorEntry(funcMap, fr.from);
        FloorEntryResolves(starts, funcMap, fr.from, e);
        EncodeFramesSnoc(starts, persisted[..j - 2], fr);
        if e.None? {
          EncodeFramesFirstFailure(starts, persisted, j - 2);
          return Err(FramePointerNotFound(j));
        }
        var ptr := SavePointer(starts, e.value.1, fr.from);
        assert EncodeFrame(starts, fr) == Some([fr.locals, fr.arity, fr.vpos] + [ptr.0, ptr.1]);
        toks := toks + ([fr.locals, fr.arity, fr.vpos] + [ptr.0, ptr.1]);
        j := j + 1;
      }
      assert persisted[..j - 2] == persisted;
      return Ok(toks);
    }

    /**
     * `save_stack`: the operand stack, the frame count, frames 2 and up with
     * their return points, and the PC, each position located through the
     * `FuncMap` predecessor search; or the error it throws.
     */
    method SaveStack(pc: u64) returns (res: Result<Tokens, SaveError>)
      requires Valid()
      ensures res == EncodeStack(stackMgr.valueStack, stackMgr.frameStack, pc, modInst.funcStarts)
    {
      var values := stackMgr.valueStack;
      var n := Truncate32(|values|);
      var vt := SaveValues(values, n);
      var starts := modInst.funcStarts;
      var funcMap := BuildFuncMap(starts);
      var frames := stackMgr.frameStack;
      var ft := SaveFrames(starts, funcMap, frames);
      if ft.Err? {
        return Err(ft.error);
      }
      var e := FloorEntry(funcMap, pc);
      FloorEntryResolves(starts, funcMap, pc, e);
      if e.None? {
        return Err(PcNotFound);
      }
      var ptr := SavePointer(starts, e.value.1, pc);
      return Ok([n] + vt + [Truncate32(|frames|)] + ft.value + [ptr.0, ptr.1]);
    }
  
    /**
     * The first half of `load_stack`: the operand stack resized to the
     * recorded size and filled, bottom to top, with the values read.
     */
    method LoadValueStack(toks: Tokens) returns (res: Result<Tokens, LoadError>)
      modifies stackMgr`valueStack
      ensures match ReadField(toks, U32_BOUND)
        case Err(e) => res == Err(e)
        case Ok((n, t1)) =>
          match DecodeValues(t1, n, [])
          case Err(e) => res == Err(e)
          case Ok((vs, rest)) => res == Ok(rest) && stackMgr.valueStack == vs
    {
      var r := ReadField(toks, U32_BOUND);
      if r.Err? {
        return Err(r.error);
      }
      var n := r.value.0;
      ghost var t1 := r.value.1;
      var prev := stackMgr.valueStack;
      stackMgr.valueStack := if n <= |prev| then prev[..n] else prev + seq(n - |prev|, _ => 0);
      var rest := r.value.1;
      var i := 0;
      while i < n
        invariant i <= n && |stackMgr.valueStack| == n
        invariant DecodeValues(rest, n - i, stackMgr.valueStack[..i]) == DecodeValues(t1, n, [])
      {
        var f := ReadField(rest, U64_BOUND);
        if f.Err? {
          return Err(f.error);
        }
        ghost var done := stackMgr.valueStack[..i];
        var v := LoadValue(f.value.0);
        stackMgr.valueStack := stackMgr.valueStack[i := v];
        assert stackMgr.valueStack[..i + 1] == done + [v];
        rest := f.value.1;
        i := i + 1;
      }
      assert stackMgr.valueStack[..n] == stackMgr.valueStack;
      res := Ok(rest);
    }

    /**
     * The frame loop of `load_stack`: for a recorded count above 2, that
     * many frames less two read and pushed onto the frame stack in order.
     */
    method LoadFrameStack(toks: Tokens, starts: seq<u64>) returns (res: Result<Tokens, LoadError>)
      modifies stackMgr`frameStack
      ensures match ReadField(toks, U32_BOUND)
        case Err(e) => res == Err(e)
        case Ok((count, t3)) =>
          match DecodeFrames(t3, FramesToLoad(count), starts, [])
          case Err(e) => res == Err(e)
          case Ok((frs, rest)) => res == Ok(rest) && stackMgr.frameStack == old(stackMgr.frameStack) + frs
    {
      var r := ReadField(toks, U32_BOUND);
      if r.Err? {
        return Err(r.error);
      }
      res := AppendFrames(r.value.1, FramesToLoad(r.value.0), starts);
    }

    /**
     * The frame loop of `load_stack` (indices 2 up to the count): each frame
     * read, with its return point, pushed onto the frame stack.
     */
    method AppendFrames(toks: Tokens, n: nat, starts: seq<u64>) returns (res: Result<Tokens, LoadError>)
      modifies stackMgr`frameStack
      ensures match DecodeFrames(toks, n, starts, [])
        case Err(e) => res == Err(e)
        case Ok((frs, rest)) => res == Ok(rest) && stackMgr.frameStack == old(stackMgr.frameStack) + frs
    {
      ghost var base := stackMgr.frameStack;
      ghost var pushed: seq<Frame> := [];
      var rest := toks;
      var left := n;
      while left > 0
        invariant stackMgr.frameStack == base + pushed
        invariant DecodeFrames(rest, left, starts, pushed) == DecodeFrames(toks, n, starts, [])
      {
        var d := DecodeFrame(rest, starts);
        if d.Err? {
          return Err(d.error);
        }
        var fr := d.value.0;
        stackMgr.frameStack := stackMgr.frameStack + [fr];
        assert stackMgr.frameStack == base + (pushed + [fr]);
        pushed := pushed + [fr];
        rest := d.value.1;
        left := left - 1;
      }
      res := Ok(rest);
    }

    /**
     * `load_stack`: the operand stack replaced by the values read, the frames
     * read appended to the frame stack, and the PC with its function.
     */
    method LoadStack(toks: Tokens) returns (res: Result<((u64, nat), Tokens), LoadError>)
      requires Valid()
      modifies stackMgr
      ensures match DecodeStack(toks, modInst.funcStarts)
        case Err(e) => res == Err(e)
        case Ok((img, rest)) =>
          && res == Ok(((img.pc, img.func), rest))
          && stackMgr.valueStack == img.values
          && stackMgr.frameStack == old(stackMgr.frameStack) + img.frames
    {
      var starts := modInst.funcStarts;
      var r1 := LoadValueStack(toks);
      if r1.Err? {
        return Err(r1.error);
      }
      var r2 := LoadFrameStack(r1.value, starts);
      if r2.Err? {
        return Err(r2.error);
      }
      var p := DecodePointer(r2.value, starts);
      if p.Err? {
        return Err(p.error);
      }
      return Ok(((p.value.0.1, p.value.0.0), p.value.1));
    }
  
    /**
     * `save`: the global, stack and memory tokens in that order and the
     * memory log. When `save_stack` throws, memory is not reached and the
     * baseline is kept.
     */
    method Save(pc: u64) returns (res: Result<(Tokens, Log), SaveError>)
      requires Valid()
      modifies this`savedData
      ensures match EncodeSnapshot(modInst.globals[..], stackMgr.valueStack, stackMgr.frameStack, pc,
                                   modInst.funcStarts, modInst.ElemNum())
        case Err(e) => res == Err(e) && savedData == old(savedData)
        case Ok(toks) =>
          && res == Ok((toks, Diff(old(savedData), modInst.Image())))
          && savedData == NextBaseline(modInst.Image())
    {
      var gt := SaveGlobal();
      var st := SaveStack(pc);
      if st.Err? {
        return Err(st.error);
      }
      var mt, log := SaveMemory();
      return Ok((gt + st.value + mt, log));
    }

    /**
     * The first two steps of `load`: globals, then the stack; memory is not
     * touched.
     */
    method LoadState(toks: Tokens) returns (res: Result<((u64, nat), Tokens), LoadError>)
      requires Valid()
      modifies modInst.globals, stackMgr
      ensures Valid()
      ensures match DecodeState(toks, modInst.funcStarts, modInst.globals.Length)
        case Err(e) => res == Err(e)
        case Ok((gs, img, rest)) =>
          && res == Ok(((img.pc, img.func), rest))
          && modInst.globals[..] == gs + old(modInst.globals[..])[|gs|..]
          && stackMgr.valueStack == img.values
          && stackMgr.frameStack == old(stackMgr.frameStack) + img.frames
    {
      var r1 := LoadGlobal(toks);
      if r1.Err? {
        return Err(r1.error);
      }
      ghost var globals1 := modInst.globals[..];
      res := LoadStack(r1.value);
      assert modInst.globals[..] == globals1;
    }

    /**
     * `load`: globals, then the stack, then memory, against this module; the
     * PC and its FuncId on success. `DecodeSnapshot` is this sequence of
     * reads.
     */
    method Load(toks: Tokens, logs: seq<Log>) returns (res: Result<(u64, nat), LoadError>)
      requires Valid()
      modifies this`savedData, modInst, modInst.MemRepr(), modInst.globals, stackMgr
      ensures Valid()
      ensures match DecodeState(toks, modInst.funcStarts, modInst.globals.Length)
        case Err(e) => res == Err(e)
        case Ok((gs, img, rest)) =>
          && modInst.globals[..] == gs + old(modInst.globals[..])[|gs|..]
          && stackMgr.valueStack == img.values
          && stackMgr.frameStack == old(stackMgr.frameStack) + img.frames
          && match ReadField(rest, U64_BOUND)
             case Err(e) => res == Err(e)
             case Ok((n, _)) =>
               && res == Ok((img.pc, img.func))
               && MemoryLoaded(n, logs, old(modInst.mem), old(modInst.Pages()), old(modInst.Bytes()), old(savedData))
    {
      var r := LoadState(toks);
      if r.Err? {
        return Err(r.error);
      }
      var r3 := LoadMemory(r.value.1, logs);
      if r3.Err? {
        return Err(r3.error);
      }
      return Ok(r.value.0);
    }
  }
}
