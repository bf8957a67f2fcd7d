/** create_process as a whole: what the arguments decide about the life of the child. */
module Creation {
  import opened Memory
  import opened MachineState
  import opened Lifecycle
  import opened Arguments
  import Status

  /** How _create_proccess goes on once the child is loaded: process_add_arguments lets
      it start, or returns an error and leaves it as it is. */
  function ResultOf(status: Status.Status): CreateResult {
    if status == Status.Ok then Succeeds else ArgsFail
  }

  /** The child can run exactly when its arguments pass the 32-bit size guard; a child
      whose arguments are refused stays in creation, and a clock step that comes to
      it panics. */
  lemma ArgumentsDecide(w: World, m: seq<Byte>, stack: nat, argc: Word, len: Word, src: Word, unset: Word)
    requires Inv(w) && FreeSlot(w.slots) < MAX_PROCS && |m| == SPACE
    ensures
      var k, fits := FreeSlot(w.slots), (4 * argc + len) % 0x1_0000_0000 <= 0x4000;
      var o := Step(w, Create(ResultOf(AddArguments(m, stack, argc, len, src, unset).status)));
      && w.cur < |w.slots| && o.Runs? && Inv(o.w) && |o.w.slots| == MAX_PROCS
      && o.w.slots[k].status == (if fits then CanStart else Creating)
      && (Runnable(o.w, |w.tasks|) <==> fits)
      && (Find(o.w.tasks, o.w.cur) + 1 == |w.tasks| ==> (Step(o.w, Clock).Panicked? <==> !fits))
  {
    hide AddArguments, DoCreate, DoClock;
    GuardExact(m, stack, argc, len, src, unset);
    var result := ResultOf(AddArguments(m, stack, argc, len, src, unset).status);
    CreateExact(w, result);
    StepKeeps(w, Create(result));
    ClockExact(Step(w, Create(result)).w);
  }
}
