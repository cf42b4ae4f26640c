/**
 * The frame helper that merges SpiderMonkey's JavaScript stack into a native backtrace
 * (gdbaudy/mozbt.py): reconstructing a JSContext's frame pointer, pc and stack segment as
 * the walk goes from newer to older native frames, synthesising one frame per interpreted
 * JavaScript frame, and hiding the engine's own native frames.
 *
 * The debugged process's memory is given as finite maps from addresses to the records the
 * helper reads; address 0 is the null pointer and reading through it, or through an
 * address that is not mapped, is a memory error.
 */
module MozBacktrace {
  import opened Wrappers
  import opened Text

  type Addr = nat

  /** A js::StackFrame: the older frame, the pc to resume it at, flags and the
      function-or-script union. */
  datatype FrameRec = FrameRec(prev: Addr, prevpc: Addr, flags: bv32, exec: Addr)
  /** A JSFunction: its name atom and, for an interpreted function, its script. */
  datatype FunRec = FunRec(atom: Addr, script: Addr)
  datatype ScriptRec = ScriptRec(filename: string, lineno: int)
  /** A StackSegment: the older segment of the same context and its saved registers. */
  datatype SegmentRec = SegmentRec(previousInContext: Addr, suspendedRegs: Addr)
  datatype RegsRec = RegsRec(fp: Addr, pc: Addr)
  datatype ContextRec = ContextRec(regs: Addr, currentSegment: Addr)

  /** The memory of the debugged process, by record kind. `atoms` holds the quoted
      summary the atom pretty-printer produces. */
  datatype Memory = Memory(
    frames: map<Addr, FrameRec>,
    funs: map<Addr, FunRec>,
    atoms: map<Addr, string>,
    scripts: map<Addr, ScriptRec>,
    segments: map<Addr, SegmentRec>,
    regs: map<Addr, RegsRec>,
    contexts: map<Addr, ContextRec>)

  /** Reading the record at `a`. */
  function Deref<T>(m: map<Addr, T>, a: Addr): (r: Result<T>)
    ensures r.Ok? <==> a != 0 && a in m
    ensures r.Ok? ==> r.value == m[a]
    ensures r.Err? ==> r.error == MemoryError
  {
    if a != 0 && a in m then Ok(m[a]) else Err(MemoryError)
  }

  // ================================================================ naming

  /** norm_js_path: chrome URLs pass through; otherwise drop a leading 'file://' and keep
      the last path component. */
  function NormJsPath(path: string): string {
    if StartsWith(path, "chrome://") then path
    else
      var p := if StartsWith(path, "file://") then path[7..] else path;
      LastComponent(p)
  }

  /** `os.path.split(p)[1]`: the text after the last separator. */
  function LastComponent(p: string): string {
    var parts := Split(p, '/');
    parts[|parts| - 1]
  }

  lemma LastComponentIsTail(p: string)
    ensures '/' !in LastComponent(p)
    ensures IsSuffix(LastComponent(p), p)
    ensures '/' !in p ==> LastComponent(p) == p
  {
    var parts := Split(p, '/');
    SplitPieces(p, '/');
    JoinTailIsSuffix(parts, '/', |parts| - 1);
    JoinSplit(p, '/');
    assert parts[|parts| - 1..] == [parts[|parts| - 1]];
  }

  /** A normalised script path is the whole chrome URL, or a file name without any
      separator that ends the path. */
  lemma NormJsPathShape(path: string)
    ensures StartsWith(path, "chrome://") ==> NormJsPath(path) == path
    ensures !StartsWith(path, "chrome://") ==> '/' !in NormJsPath(path) && IsSuffix(NormJsPath(path), path)
  {
    if !StartsWith(path, "chrome://") {
      var p := if StartsWith(path, "file://") then path[7..] else path;
      LastComponentIsTail(p);
      if StartsWith(path, "file://") {
        assert path == path[..7] + p;
      }
    }
  }

  /** Python's `s[1:-1]`. */
  function Unquote(s: string): (r: string)
    ensures |s| >= 2 ==> r == s[1..|s| - 1]
    ensures |s| < 2 ==> r == ""
  {
    if |s| < 2 then "" else s[1..|s| - 1]
  }

  /** get_func_name_from_atom: '<unnamed function>' for a null atom, otherwise the
      atom's summary without its quotes. */
  function FuncNameFromAtom(mem: Memory, atom: Addr): (r: Result<string>)
    ensures atom == 0 ==> r == Ok("<unnamed function>")
    ensures atom != 0 ==> (r.Ok? <==> atom in mem.atoms)
  {
    if atom == 0 then Ok("<unnamed function>")
    else
      var summary :- Deref(mem.atoms, atom);
      Ok(Unquote(summary))
  }

  /** The pretty-printer's summary quotes the atom's text, and the quotes are removed
      again. */
  lemma FuncNameOfQuotedAtom(mem: Memory, atom: Addr, name: string)
    requires atom != 0 && atom in mem.atoms && mem.atoms[atom] == "\"" + name + "\""
    ensures FuncNameFromAtom(mem, atom) == Ok(name)
  {
    assert mem.atoms[atom][1..|mem.atoms[atom]| - 1] == name;
  }

  /** A synthesised JavaScript frame. */
  datatype JSFrame = JSFrame(pc: Addr, funcName: string, filename: string, line: int)

  const JSFRAME_FUNCTION: bv32 := 0x2

  predicate IsFunctionFrame(f: FrameRec) {
    f.flags & JSFRAME_FUNCTION != 0
  }

  /** The script a frame runs and the name it is shown under. */
  function ScriptAndName(mem: Memory, f: FrameRec): Result<(Addr, string)>
  {
    if IsFunctionFrame(f) then
      var fun :- Deref(mem.funs, f.exec);
      var name :- FuncNameFromAtom(mem, fun.atom);
      Ok((fun.script, name))
    else Ok((f.exec, "<anon>"))
  }

  /** JSFrame.__init__: the name comes from the function's atom for a function frame and
      is '<anon>' otherwise; a frame without a script has file '<none>' and line 0. */
  function MakeJSFrame(mem: Memory, fp: Addr, pc: Addr): (r: Result<JSFrame>)
    ensures r.Ok? ==> fp != 0 && fp in mem.frames && r.value.pc == pc
    ensures r.Ok? && !IsFunctionFrame(mem.frames[fp]) ==> r.value.funcName == "<anon>"
    ensures r.Ok? && IsFunctionFrame(mem.frames[fp]) ==>
              mem.frames[fp].exec in mem.funs &&
              Ok(r.value.funcName) == FuncNameFromAtom(mem, mem.funs[mem.frames[fp].exec].atom)
    ensures fp == 0 || fp !in mem.frames ==> r == Err(MemoryError)
  {
    var frame :- Deref(mem.frames, fp);
    var sn :- ScriptAndName(mem, frame);
    if sn.0 == 0 then Ok(JSFrame(pc, sn.1, "<none>", 0))
    else
      var script :- Deref(mem.scripts, sn.0);
      Ok(JSFrame(pc, sn.1, script.filename, script.lineno))
  }

  /** A frame whose script pointer is null is shown as '<none>', line 0; otherwise with
      the script's file and first line. */
  lemma MakeJSFrameLocation(mem: Memory, fp: Addr, pc: Addr)
    requires MakeJSFrame(mem, fp, pc).Ok?
    ensures var frame, r := mem.frames[fp], MakeJSFrame(mem, fp, pc).value;
            var script := ScriptAndName(mem, frame).value.0;
            (script == 0 ==> r.filename == "<none>" && r.line == 0) &&
            (script != 0 ==> script in mem.scripts && r.filename == mem.scripts[script].filename &&
                             r.line == mem.scripts[script].lineno)
  {
  }

  // ================================================================ scratch context

  /** The reconstructed state of one JSContext: whether it had registers when captured,
      the current frame pointer and pc, and the current stack segment. */
  datatype Scx = Scx(live: bool, fp: Addr, pc: Addr, segment: Addr)

  /** JSScratchContext.__init__: read the context's registers; a context without
      registers is captured as not live. */
  function Captured(mem: Memory, cx: Addr): (r: Result<Scx>)
    ensures r.Ok? ==> cx in mem.contexts
    ensures r.Ok? ==> (r.value.live <==> mem.contexts[cx].regs != 0)
    ensures r.Ok? && r.value.live ==>
              mem.contexts[cx].regs in mem.regs &&
              var regs := mem.regs[mem.contexts[cx].regs];
              r.value == Scx(true, regs.fp, regs.pc, mem.contexts[cx].currentSegment)
  {
    var c :- Deref(mem.contexts, cx);
    if c.regs == 0 then Ok(Scx(false, 0, 0, 0))
    else
      var regs :- Deref(mem.regs, c.regs);
      Ok(Scx(true, regs.fp, regs.pc, c.currentSegment))
  }

  /** restoreSegment: move to the segment before the current one and resume its saved
      registers; fails when there is no older segment. */
  function Restored(mem: Memory, s: Scx): (r: Result<Scx>)
    ensures r.Ok? ==> s.live && r.value.live && s.segment in mem.segments
    ensures r.Ok? ==> var older := mem.segments[s.segment].previousInContext;
                      older != 0 && older in mem.segments && r.value.segment == older &&
                      mem.segments[older].suspendedRegs in mem.regs &&
                      r.value.fp == mem.regs[mem.segments[older].suspendedRegs].fp &&
                      r.value.pc == mem.regs[mem.segments[older].suspendedRegs].pc
    ensures (s.live && s.segment != 0 && s.segment in mem.segments &&
             mem.segments[s.segment].previousInContext == 0) ==> r == Err(NoSegment)
  {
    if !s.live then Err(NoRegisters)
    else
      var seg :- Deref(mem.segments, s.segment);
      if seg.previousInContext == 0 then Err(NoSegment)
      else
        var older :- Deref(mem.segments, seg.previousInContext);
        var regs :- Deref(mem.regs, older.suspendedRegs);
        Ok(Scx(true, regs.fp, regs.pc, seg.previousInContext))
  }

  /** hackRestore: restore only when the frame pointer is null. */
  function HackRestored(mem: Memory, s: Scx): (r: Result<Scx>)
    ensures s.live && s.fp != 0 ==> r == Ok(s)
    ensures s.live && s.fp == 0 ==> r == Restored(mem, s)
  {
    if !s.live then Err(NoRegisters)
    else if s.fp == 0 then Restored(mem, s)
    else Ok(s)
  }

  /** The remainder of popUntilFrame's loop from state `s` with the pending pc `curPc`:
      restore a segment if the frame pointer is null, synthesise the frame (kept only when
      its pc is non-null), stop after the frame at `stop`, and otherwise step to the older
      frame. At most `fuel` iterations are modelled; the source has no such bound. */
  function PopFrom(mem: Memory, s: Scx, curPc: Addr, stop: Addr, fuel: nat): Result<(seq<JSFrame>, Scx)>
    decreases fuel
  {
    if fuel == 0 then Err(OutOfFuel)
    else
      var s1 :- if s.fp == 0 then Restored(mem, s) else Ok(s);
      var frame :- MakeJSFrame(mem, s1.fp, curPc);
      var rec := mem.frames[s1.fp];
      var emitted := if curPc != 0 then [frame] else [];
      var s2 := s1.(fp := rec.prev);
      if s1.fp == stop then Ok((emitted, s2))
      else
        var rest :- PopFrom(mem, s2, rec.prevpc, stop, fuel - 1);
        Ok((emitted + rest.0, rest.1))
  }

  /** popUntilFrame: restore first if the frame pointer is null, then walk from the
      context's pc. */
  function Pop(mem: Memory, s: Scx, stop: Addr, fuel: nat): Result<(seq<JSFrame>, Scx)>
  {
    if !s.live then Err(NoRegisters)
    else
      var s0 :- if s.fp == 0 then Restored(mem, s) else Ok(s);
      PopFrom(mem, s0, s0.pc, stop, fuel)
  }

  /** Once the walk ends within its budget, a larger budget gives the same result. */
  lemma {:induction false} PopFromFuel(mem: Memory, s: Scx, curPc: Addr, stop: Addr, fuel: nat, more: nat)
    requires PopFrom(mem, s, curPc, stop, fuel).Ok? && fuel <= more
    ensures PopFrom(mem, s, curPc, stop, more) == PopFrom(mem, s, curPc, stop, fuel)
    decreases fuel
  {
    var s1 := if s.fp == 0 then Restored(mem, s).value else s;
    if s1.fp != stop {
      PopFromFuel(mem, s1.(fp := mem.frames[s1.fp].prev), mem.frames[s1.fp].prevpc, stop, fuel - 1, more - 1);
    }
  }

  lemma PopFuel(mem: Memory, s: Scx, stop: Addr, fuel: nat, more: nat)
    requires Pop(mem, s, stop, fuel).Ok? && fuel <= more
    ensures Pop(mem, s, stop, more) == Pop(mem, s, stop, fuel)
  {
    var s0 := if s.fp == 0 then Restored(mem, s).value else s;
    PopFromFuel(mem, s0, s0.pc, stop, fuel, more);
  }

  /** Dummy native frames (pc 0) are never synthesised. */
  lemma {:induction false} PopFromFramesHavePc(mem: Memory, s: Scx, curPc: Addr, stop: Addr, fuel: nat)
    requires PopFrom(mem, s, curPc, stop, fuel).Ok?
    ensures forall i :: 0 <= i < |PopFrom(mem, s, curPc, stop, fuel).value.0| ==>
              PopFrom(mem, s, curPc, stop, fuel).value.0[i].pc != 0
    decreases fuel
  {
    var s1 := if s.fp == 0 then Restored(mem, s).value else s;
    if s1.fp != stop {
      PopFromFramesHavePc(mem, s1.(fp := mem.frames[s1.fp].prev), mem.frames[s1.fp].prevpc, stop, fuel - 1);
    }
  }

  /** A walk that ends has processed the frame at `stop` last, so the context is left on
      that frame's caller. */
  lemma {:induction false} PopFromStops(mem: Memory, s: Scx, curPc: Addr, stop: Addr, fuel: nat)
    requires PopFrom(mem, s, curPc, stop, fuel).Ok?
    ensures stop != 0 && stop in mem.frames
    ensures PopFrom(mem, s, curPc, stop, fuel).value.1.fp == mem.frames[stop].prev
    decreases fuel
  {
    var s1 := if s.fp == 0 then Restored(mem, s).value else s;
    if s1.fp != stop {
      PopFromStops(mem, s1.(fp := mem.frames[s1.fp].prev), mem.frames[s1.fp].prevpc, stop, fuel - 1);
    }
  }

  /** Within one segment (no null frame pointer met), the frames come out innermost
      first: the first synthesised frame, if its pc is not null, is the frame the context
      was on. */
  lemma PopFromFirstFrame(mem: Memory, s: Scx, curPc: Addr, stop: Addr, fuel: nat)
    requires PopFrom(mem, s, curPc, stop, fuel).Ok?
    requires s.fp != 0 && curPc != 0
    ensures |PopFrom(mem, s, curPc, stop, fuel).value.0| >= 1
    ensures PopFrom(mem, s, curPc, stop, fuel).value.0[0] == MakeJSFrame(mem, s.fp, curPc).value
  {
  }

  /** One iteration of popUntilFrame's loop. */
  lemma PopFromUnfold(mem: Memory, s: Scx, curPc: Addr, stop: Addr, fuel: nat)
    requires fuel > 0
    ensures var s1r := if s.fp == 0 then Restored(mem, s) else Ok(s);
            s1r.Err? ==> PopFrom(mem, s, curPc, stop, fuel) == Err(s1r.error)
    ensures var s1r := if s.fp == 0 then Restored(mem, s) else Ok(s);
            s1r.Ok? && MakeJSFrame(mem, s1r.value.fp, curPc).Err? ==>
              PopFrom(mem, s, curPc, stop, fuel) == Err(MakeJSFrame(mem, s1r.value.fp, curPc).error)
    ensures var s1r := if s.fp == 0 then Restored(mem, s) else Ok(s);
            s1r.Ok? && MakeJSFrame(mem, s1r.value.fp, curPc).Ok? ==>
              var s1 := s1r.value;
              var rec := mem.frames[s1.fp];
              var emitted := if curPc != 0 then [MakeJSFrame(mem, s1.fp, curPc).value] else [];
              PopFrom(mem, s, curPc, stop, fuel) ==
                if s1.fp == stop then Ok((emitted, s1.(fp := rec.prev)))
                else Prefixed(emitted, PopFrom(mem, s1.(fp := rec.prev), rec.prevpc, stop, fuel - 1))
  {
  }

  lemma PrefixedTwice(a: seq<JSFrame>, b: seq<JSFrame>, r: Result<(seq<JSFrame>, Scx)>)
    ensures Prefixed(a, Prefixed(b, r)) == Prefixed(a + b, r)
    ensures Prefixed([], r) == r
  {
    if r.Ok? {
      assert a + (b + r.value.0) == (a + b) + r.value.0;
      assert [] + r.value.0 == r.value.0;
    }
  }

  /** `r` with `prefix` put in front of its frames. */
  function Prefixed(prefix: seq<JSFrame>, r: Result<(seq<JSFrame>, Scx)>): Result<(seq<JSFrame>, Scx)> {
    match r
    case Err(e) => Err(e)
    case Ok(p) => Ok((prefix + p.0, p.1))
  }

  /** One JSContext as the walk reconstructs it. */
  class ScratchContext {
    var live: bool
    var fp: Addr
    var pc: Addr
    var currentSegment: Addr

    function State(): Scx
      reads this
    {
      Scx(live, fp, pc, currentSegment)
    }

    /** Store a captured state (see Captured). */
    constructor (s: Scx)
      ensures State() == s
    {
      live, fp, pc, currentSegment := s.live, s.fp, s.pc, s.segment;
    }

    /** restoreSegment. On failure the backtrace is abandoned; the model then leaves the
        state as it was. */
    method RestoreSegment(mem: Memory) returns (r: Result<()>)
      modifies this
      ensures r.Ok? <==> Restored(mem, old(State())).Ok?
      ensures r.Ok? ==> State() == Restored(mem, old(State())).value
      ensures r.Err? ==> r.error == Restored(mem, old(State())).error && State() == old(State())
    {
      if !live {
        return Err(NoRegisters);
      }
      var seg :- Deref(mem.segments, currentSegment);
      if seg.previousInContext == 0 {
        return Err(NoSegment);
      }
      var older :- Deref(mem.segments, seg.previousInContext);
      var regs :- Deref(mem.regs, older.suspendedRegs);
      currentSegment := seg.previousInContext;
      fp := regs.fp;
      pc := regs.pc;
      return Ok(());
    }

    /** hackRestore */
    method HackRestore(mem: Memory) returns (r: Result<()>)
      modifies this
      ensures r.Ok? <==> HackRestored(mem, old(State())).Ok?
      ensures r.Ok? ==> State() == HackRestored(mem, old(State())).value
      ensures r.Err? ==> r.error == HackRestored(mem, old(State())).error
    {
      if !live {
        return Err(NoRegisters);
      }
      if fp == 0 {
        r := RestoreSegment(mem);
      } else {
        r := Ok(());
      }
    }

    /** popUntilFrame: append the synthesised frames to `synFrames` (returned, since the
        model has no shared list) until the frame at `stop` has been processed. */
    method PopUntilFrame(mem: Memory, synFrames: seq<JSFrame>, stop: Addr, fuel: nat) returns (r: Result<seq<JSFrame>>)
      modifies this
      ensures r.Ok? <==> Pop(mem, old(State()), stop, fuel).Ok?
      ensures r.Ok? ==> r.value == synFrames + Pop(mem, old(State()), stop, fuel).value.0 &&
                        State() == Pop(mem, old(State()), stop, fuel).value.1
      ensures r.Err? ==> r.error == Pop(mem, old(State()), stop, fuel).error
    {
      ghost var target := Pop(mem, State(), stop, fuel);
      if !live {
        return Err(NoRegisters);
      }
      if fp == 0 {
        var restored := RestoreSegment(mem);
        if restored.Err? {
          return Err(restored.error);
        }
      }
      var out := synFrames;
      ghost var emitted: seq<JSFrame> := [];
      var curPc := pc;
      var done := false;
      var steps: nat := 0;
      PrefixedTwice([], [], PopFrom(mem, State(), curPc, stop, fuel));
      while !done
        invariant steps <= fuel
        invariant live
        invariant out == synFrames + emitted
        invariant !done ==> target == Prefixed(emitted, PopFrom(mem, State(), curPc, stop, fuel - steps))
        invariant done ==> target == Ok((emitted, State()))
        decreases fuel - steps, !done
      {
        if steps == fuel {
          return Err(OutOfFuel);
        }
        PopFromUnfold(mem, State(), curPc, stop, fuel - steps);
        if fp == 0 {
          var restored := RestoreSegment(mem);
          if restored.Err? {
            return Err(restored.error);
          }
        }
        var jsframe := MakeJSFrame(mem, fp, curPc);
        if jsframe.Err? {
          return Err(jsframe.error);
        }
        ghost var step: seq<JSFrame> := [];
        if curPc != 0 {
          out := out + [jsframe.value];
          step := [jsframe.value];
        }
        done := fp == stop;
        var rec := mem.frames[fp];
        PrefixedTwice(emitted, step, PopFrom(mem, State().(fp := rec.prev), rec.prevpc, stop, fuel - steps - 1));
        emitted := emitted + step;
        curPc := rec.prevpc;
        fp := rec.prev;
        steps := steps + 1;
      }
      return Ok(out);
    }
  }

  // ================================================================ frame helper

  /** The code range of one native function; both ends belong to it. */
  datatype PcRange = PcRange(start: Addr, end: Addr)

  predicate InRange(pc: Addr, r: PcRange) {
    r.start <= pc <= r.end
  }

  /** The native functions whose frames the helper recognises: js::Interpret,
      js::Execute, js::RunScript and XPC_WN_CallMethod. */
  datatype Blocks = Blocks(interp: PcRange, exec: PcRange, invoke: PcRange, xpcMethod: PcRange)

  /** What process_frame does with a native frame, decided by its pc. */
  datatype Action = HideInterpreter | PopToFp | PopToPrevAndRestore | HideXpcMethod | ByName

  /** The pc tests of process_frame, in order; the first that holds decides. */
  function Classify(b: Blocks, pc: Addr): (a: Action)
    ensures a == HideInterpreter <==> InRange(pc, b.interp)
    ensures a == PopToFp <==> !InRange(pc, b.interp) && InRange(pc, b.invoke)
    ensures a == PopToPrevAndRestore <==> !InRange(pc, b.interp) && !InRange(pc, b.invoke) && InRange(pc, b.exec)
    ensures a == HideXpcMethod <==>
              !InRange(pc, b.interp) && !InRange(pc, b.invoke) && !InRange(pc, b.exec) && InRange(pc, b.xpcMethod)
  {
    if InRange(pc, b.interp) then HideInterpreter
    else if InRange(pc, b.invoke) then PopToFp
    else if InRange(pc, b.exec) then PopToPrevAndRestore
    else if InRange(pc, b.xpcMethod) then HideXpcMethod
    else ByName
  }

  /** Name prefixes of JavaScript engine and XPConnect internals. */
  const BoringPrefixes: seq<string> := ["JS_", "js_", "js::", "XPC", "xpc_", "nsXPCWrapped", "CallMethodHelper::"]
  /** Exact names of XPConnect call trampolines. */
  const BoringNames: set<string> := {"PrepareAndDispatch", "NS_InvokeByIndex_P"}

  /** A native function whose frame is not worth showing. */
  predicate IsBoringName(name: string) {
    (exists i :: 0 <= i < |BoringPrefixes| && StartsWith(name, BoringPrefixes[i])) || name in BoringNames
  }

  /** A frame outside the recognised ranges is shown unless it has a boring name; a frame
      without a name (None or empty) is shown. */
  predicate ShownByName(name: Option<string>) {
    name.None? || !IsBoringName(name.value)
  }

  lemma ShownByNameExamples()
    ensures !ShownByName(Some("js::Invoke")) && !ShownByName(Some("XPCWrappedNative::CallMethod"))
    ensures !ShownByName(Some("NS_InvokeByIndex_P")) && !ShownByName(Some("JS_CallFunctionValue"))
    ensures ShownByName(Some("")) && ShownByName(None)
  {
    assert StartsWith("js::Invoke", BoringPrefixes[2]);
    assert StartsWith("XPCWrappedNative::CallMethod", BoringPrefixes[3]);
    assert StartsWith("JS_CallFunctionValue", BoringPrefixes[0]);
  }

  /** What a native frame's debug information says: its pc and function name, and the
      values of its local variables `cx`, `fp` and `prev`. */
  datatype NativeFrame = NativeFrame(pc: Addr, name: Option<string>, cx: Addr, fpVar: Addr, prevVar: Addr)

  /** The outcome of process_frame, with the state the frame's context is left in when
      the frame touched one. */
  datatype Step = Step(frames: seq<JSFrame>, show: bool, after: Option<Scx>)

  /** process_frame on a frame whose context starts in state `start`. */
  function Processed(mem: Memory, b: Blocks, f: NativeFrame, start: Result<Scx>, fuel: nat): Result<Step>
  {
    match Classify(b, f.pc)
    case HideInterpreter => Ok(Step([], false, None))
    case HideXpcMethod => Ok(Step([], false, None))
    case ByName => Ok(Step([], ShownByName(f.name), None))
    case PopToFp =>
      var s :- start;
      var p :- Pop(mem, s, f.fpVar, fuel);
      Ok(Step(p.0, false, Some(p.1)))
    case PopToPrevAndRestore =>
      var s :- start;
      var p :- Pop(mem, s, f.prevVar, fuel);
      var s2 :- Restored(mem, p.1);
      Ok(Step(p.0, false, Some(s2)))
  }

  /** A frame inside any recognised range is never shown; a shown frame synthesises
      nothing; JavaScript frames come only from the RunScript and Execute ranges. */
  lemma ProcessedShows(mem: Memory, b: Blocks, f: NativeFrame, start: Result<Scx>, fuel: nat)
    requires Processed(mem, b, f, start, fuel).Ok?
    ensures var st := Processed(mem, b, f, start, fuel).value;
            (st.show <==> Classify(b, f.pc) == ByName && ShownByName(f.name)) &&
            (st.frames != [] ==> Classify(b, f.pc) in {PopToFp, PopToPrevAndRestore}) &&
            (st.show ==> st.frames == [] && st.after == None)
  {
  }

  /** Every synthesised frame has a pc, and after an Execute frame the context has moved
      one segment older than where the walk ended. */
  lemma ProcessedFrames(mem: Memory, b: Blocks, f: NativeFrame, start: Result<Scx>, fuel: nat)
    requires Processed(mem, b, f, start, fuel).Ok?
    ensures var st := Processed(mem, b, f, start, fuel).value;
            forall i :: 0 <= i < |st.frames| ==> st.frames[i].pc != 0
    ensures Classify(b, f.pc) == PopToFp ==>
              var st := Processed(mem, b, f, start, fuel).value;
              f.fpVar in mem.frames && st.after.Some? && st.after.value.fp == mem.frames[f.fpVar].prev
  {
    match Classify(b, f.pc)
    case PopToFp =>
      var s := start.value;
      var s0 := if s.fp == 0 then Restored(mem, s).value else s;
      PopFromFramesHavePc(mem, s0, s0.pc, f.fpVar, fuel);
      PopFromStops(mem, s0, s0.pc, f.fpVar, fuel);
    case PopToPrevAndRestore =>
      var s := start.value;
      var s0 := if s.fp == 0 then Restored(mem, s).value else s;
      PopFromFramesHavePc(mem, s0, s0.pc, f.prevVar, fuel);
    case _ =>
  }

  /** JSFrameHelper: the code ranges, found once, and the scratch contexts of this
      backtrace, keyed by context address. */
  class JSFrameHelper {
    var blocks: Option<Blocks>
    var contexts: map<Addr, ScratchContext>

    /** Distinct context addresses have distinct scratch contexts. */
    ghost predicate Valid()
      reads this
    {
      forall a, c :: a in contexts && c in contexts && a != c ==> contexts[a] != contexts[c]
    }

    constructor ()
      ensures Valid() && blocks == None && contexts == map[]
    {
      blocks := None;
      contexts := map[];
    }

    /** setup: look the ranges up on first use only; start a backtrace with no
        contexts. */
    method Setup(lookedUp: Blocks)
      modifies this
      ensures Valid()
      ensures blocks == if old(blocks).Some? then old(blocks) else Some(lookedUp)
      ensures contexts == map[]
    {
      if blocks.None? {
        blocks := Some(lookedUp);
      }
      contexts := map[];
    }

    /** The state the context at `cx` would start from: its scratch context if there is
        one, a fresh capture otherwise. */
    function ContextState(mem: Memory, cx: Addr): Result<Scx>
      reads this, contexts.Values
    {
      if cx in contexts then Ok(contexts[cx].State()) else Captured(mem, cx)
    }

    /** _get_scx_for_frame: one scratch context per context address, created on first
        use. */
    method GetScxForFrame(mem: Memory, cx: Addr) returns (r: Result<ScratchContext>)
      requires Valid()
      modifies this
      ensures Valid()
      ensures blocks == old(blocks)
      ensures cx in old(contexts) ==> r == Ok(old(contexts)[cx]) && contexts == old(contexts)
      ensures cx !in old(contexts) ==> (r.Ok? <==> Captured(mem, cx).Ok?)
      ensures cx !in old(contexts) && r.Ok? ==>
                fresh(r.value) && contexts == old(contexts)[cx := r.value] &&
                r.value.State() == Captured(mem, cx).value
      ensures cx !in old(contexts) && r.Err? ==> contexts == old(contexts) && r.error == Captured(mem, cx).error
    {
      if cx in contexts {
        return Ok(contexts[cx]);
      }
      var s :- Captured(mem, cx);
      var scx := new ScratchContext(s);
      contexts := contexts[cx := scx];
      return Ok(scx);
    }

    /** The popping shared by the Invoke and Execute branches of process_frame: the
        context's scratch context, popped until the frame at `stop`. The frames and the
        context's new state are Pop's from the state the context started in; no other
        context changes and no other key appears. */
    method PopContext(mem: Memory, cx: Addr, stop: Addr, fuel: nat) returns (r: Result<(seq<JSFrame>, ScratchContext)>)
      requires Valid()
      modifies this, contexts.Values
      ensures Valid()
      ensures blocks == old(blocks)
      ensures var start := old(ContextState(mem, cx));
              r.Ok? <==> start.Ok? && Pop(mem, start.value, stop, fuel).Ok?
      ensures var start := old(ContextState(mem, cx));
              r.Ok? ==> cx in contexts && r.value.1 == contexts[cx] &&
                        r.value.0 == Pop(mem, start.value, stop, fuel).value.0 &&
                        r.value.1.State() == Pop(mem, start.value, stop, fuel).value.1
      ensures var start := old(ContextState(mem, cx));
              r.Err? ==> r.error == if start.Err? then start.error else Pop(mem, start.value, stop, fuel).error
      ensures forall a :: a in old(contexts) && a != cx ==>
                a in contexts && contexts[a] == old(contexts[a]) && contexts[a].State() == old(contexts[a].State())
      ensures contexts.Keys <= old(contexts).Keys + {cx}
      ensures r.Ok? ==> r.value.1 in old(contexts.Values) || fresh(r.value.1)
    {
      ghost var start := ContextState(mem, cx);
      var scx :- GetScxForFrame(mem, cx);
      assert scx.State() == start.value;
      assert forall a :: a in old(contexts) && a != cx ==> contexts[a] != scx;
      var frames :- scx.PopUntilFrame(mem, [], stop, fuel);
      assert frames == [] + Pop(mem, start.value, stop, fuel).value.0 == Pop(mem, start.value, stop, fuel).value.0;
      r := Ok((frames, scx));
    }

    /** process_frame: the synthesised frames and whether to show the native frame. */
    method ProcessFrame(mem: Memory, f: NativeFrame, fuel: nat) returns (r: Result<(seq<JSFrame>, bool)>)
      requires Valid() && blocks.Some?
      modifies this, contexts.Values
      ensures Valid()
      ensures blocks == old(blocks)
      ensures var expected := Processed(mem, blocks.value, f, old(ContextState(mem, f.cx)), fuel);
              (r.Ok? <==> expected.Ok?) &&
              (r.Ok? ==> r.value == (expected.value.frames, expected.value.show)) &&
              (r.Err? ==> r.error == expected.error)
      ensures var expected := Processed(mem, blocks.value, f, old(ContextState(mem, f.cx)), fuel);
              r.Ok? && expected.value.after.Some? ==>
                f.cx in contexts && contexts[f.cx].State() == expected.value.after.value
      ensures var expected := Processed(mem, blocks.value, f, old(ContextState(mem, f.cx)), fuel);
              r.Ok? && expected.value.after.None? ==>
                contexts == old(contexts) &&
                forall a :: a in contexts ==> contexts[a].State() == old(contexts[a].State())
      ensures forall a :: a in old(contexts) && a != f.cx ==>
                a in contexts && contexts[a] == old(contexts[a]) && contexts[a].State() == old(contexts[a].State())
      ensures contexts.Keys <= old(contexts).Keys + {f.cx}
    {
      var b := blocks.value;
      ghost var start := ContextState(mem, f.cx);
      match Classify(b, f.pc)
      case HideInterpreter =>
        r := Ok(([], false));
      case HideXpcMethod =>
        r := Ok(([], false));
      case ByName =>
        r := Ok(([], ShownByName(f.name)));
      case PopToFp =>
        var p :- PopContext(mem, f.cx, f.fpVar, fuel);
        r := Ok((p.0, false));
      case PopToPrevAndRestore =>
        var p :- PopContext(mem, f.cx, f.prevVar, fuel);
        var restored :- p.1.RestoreSegment(mem);
        r := Ok((p.0, false));
    }
  }
}
