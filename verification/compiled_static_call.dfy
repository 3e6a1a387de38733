/** The static-call protocol on x86: a compiled static call site owns a
    to-interpreter stub ("mov rbx, <Method*>; jmp <entry>") that is emitted
    unresolved, bound to an interpreter entry when the call is routed to the
    interpreter, and reset to clean when the binding is dropped. Writes are
    modelled as sequential updates of immutable records. */
module CompiledStaticCall {
  import opened Basics

  /** Destination of the stub's jump. `Unresolved` stands both for the jump
      to itself that emission produces and for the `(address)-1` written when
      the stub is cleaned: the instruction-level code that treats the two
      alike is not part of this model. */
  datatype JumpDestination = Unresolved | Entry(addr: Address)

  /** A to-interpreter stub: where it lives, the data word of its
      move-immediate (the callee `Method*`, 0 while unbound) and its jump. */
  datatype Stub = Stub(addr: Address, data: Word, jump: JumpDestination)

  /** A static call site: the address of its call instruction, the current
      destination of that call, and its stub as found through the relocation
      information (`None` when no stub relocation belongs to the call). */
  datatype StaticCall = StaticCall(instruction: Address, destination: Address, stub: Option<Stub>)

  /** The only failure of the protocol: `guarantee(stub != NULL, ...)`. */
  datatype Fatal = StubNotFound

  /** The patching context: whether `CompiledIC_lock` is locked and whether
      the VM is at a safepoint. */
  datatype PatchContext = PatchContext(lockHeld: bool, atSafepoint: bool)

  /** Stub state right after emission or cleaning. */
  predicate IsClean(s: Stub)
  {
    s.data == 0 && s.jump == Unresolved
  }

  /** The two "MT-unsafe modification of inline cache" assertions of
      `set_to_interpreted`: the stub is unbound or already bound to exactly
      the same callee and entry. */
  predicate MayBind(s: Stub, callee: Word, entry: Address)
  {
    && (s.data == 0 || s.data == callee)
    && (s.jump == Unresolved || s.jump == Entry(entry))
  }

  /** The call routes through its stub into the interpreter entry `entry`
      of `callee`. */
  predicate BoundToInterpreted(c: StaticCall, callee: Word, entry: Address)
  {
    && c.stub.Some?
    && c.stub.value.data == callee
    && c.stub.value.jump == Entry(entry)
    && c.destination == c.stub.value.addr
  }

  // ---------------------------------------------------------------------
  // Stub emission

  /** Relocation kinds recorded while a stub is emitted. */
  datatype RelocKind =
    | StaticStubReloc(call: Address)  // the stub belongs to the call at `call`
    | MetadataReloc                   // the Method* immediate of the move
    | RuntimeCallReloc                // the jump

  datatype Relocation = Relocation(at: Address, kind: RelocKind)

  /** The parts of a code buffer that stub emission reads and writes: the
      mark of the main instruction section, the end of the stub section and
      the furthest end it may reach (after any expansion the buffer can
      make), and the relocations recorded so far. */
  datatype CodeBuffer = CodeBuffer(instsMark: Address, stubsEnd: Address, stubsLimit: Address, relocations: seq<Relocation>)

  datatype Emission = Emission(buffer: CodeBuffer, stub: Option<Stub>)

  /** Encoded length of the move of the Method* into rbx: `movq` with a
      REX prefix, an opcode and an 8-byte immediate on 64-bit. On 32-bit the
      budget of 10 bytes is read as a 5-byte `movl` (an opcode and a 4-byte
      immediate) followed by the 5-byte jump. */
  function MovLength(lp64: bool): nat
  {
    if lp64 then 1 + 1 + 8 else 1 + 4
  }

  /** Encoded length of `jmp rel32`: an opcode and a 4-byte displacement. */
  const JumpLength: nat := 1 + 4

  /** The relocations one emitted stub records at `base`. */
  function StubRelocations(base: Address, call: Address, lp64: bool): seq<Relocation>
  {
    [Relocation(base, StaticStubReloc(call)), Relocation(base, MetadataReloc), Relocation(base + MovLength(lp64), RuntimeCallReloc)]
  }

  /** Relocations the call instruction itself records (`emit_call`). */
  const CallRelocations: nat := 1

  /** The space reserved for one to-interpreter stub. */
  function ToInterpStubSize(lp64: bool): (size: nat)
    ensures size == MovLength(lp64) + JumpLength
  {
    if lp64 then 15 else 10
  }

  /** Relocation entries one static call to the interpreter needs. */
  function RelocToInterpStub(): (n: nat)
    ensures forall base, call, lp64 :: n == |StubRelocations(base, call, lp64)| + CallRelocations
  {
    4
  }

  /** `emit_to_interp_stub`: reserve the stub space, record the relocations,
      emit the move of a null Method* and a jump to itself. Yields no stub
      when the space cannot be reserved. */
  function EmitToInterpStub(buf: CodeBuffer, mark: Option<Address>, lp64: bool): (r: Emission)
    ensures r.stub.None? <==> buf.stubsEnd + ToInterpStubSize(lp64) > buf.stubsLimit
    ensures r.stub.None? ==> r.buffer == buf
    ensures r.stub.Some? ==>
      && IsClean(r.stub.value)
      && r.stub.value.addr == buf.stubsEnd
      && buf.stubsEnd <= r.buffer.stubsEnd <= buf.stubsLimit
      && r.buffer.stubsEnd - buf.stubsEnd <= ToInterpStubSize(lp64)
      && r.buffer.instsMark == buf.instsMark
      && r.buffer.stubsLimit == buf.stubsLimit
      && |r.buffer.relocations| == |buf.relocations| + RelocToInterpStub() - CallRelocations
      && r.buffer.relocations[..|buf.relocations|] == buf.relocations
      && r.buffer.relocations[|buf.relocations|]
         == Relocation(buf.stubsEnd, StaticStubReloc(if mark.Some? then mark.value else buf.instsMark))
  {
    var call := if mark.None? then buf.instsMark else mark.value;
    var size := ToInterpStubSize(lp64);
    if buf.stubsEnd + size > buf.stubsLimit then
      Emission(buf, None)
    else
      var base := buf.stubsEnd;
      var end := base + MovLength(lp64) + JumpLength;
      Emission(buf.(stubsEnd := end, relocations := buf.relocations + StubRelocations(base, call, lp64)),
               Some(Stub(base, 0, Unresolved)))
  }

  // ---------------------------------------------------------------------
  // Binding and cleaning

  /** `set_to_interpreted(callee, entry)`: a call without a stub is fatal;
      otherwise the stub's data becomes `callee`, its jump `entry`, and the
      call is redirected to the stub. */
  function SetToInterpreted(c: StaticCall, callee: Word, entry: Address): (r: Result<StaticCall, Fatal>)
    requires c.stub.Some? ==> MayBind(c.stub.value, callee, entry)
    ensures c.stub.None? <==> r == Failure(StubNotFound)
    ensures r.Success? ==>
      && BoundToInterpreted(r.value, callee, entry)
      && r.value.instruction == c.instruction
      && r.value.stub.value.addr == c.stub.value.addr
  {
    match c.stub
    case None => Failure(StubNotFound)
    case Some(stub) =>
      var bound := stub.(data := callee).(jump := Entry(entry));
      Success(c.(stub := Some(bound)).(destination := bound.addr))
  }

  /** `set_stub_to_clean`: under the lock or at a safepoint, the stub goes
      back to data 0 and an unresolved jump; the call itself is untouched. */
  function SetStubToClean(ctx: PatchContext, c: StaticCall): (r: StaticCall)
    requires ctx.lockHeld || ctx.atSafepoint
    requires c.stub.Some?
    ensures r.stub.Some? && IsClean(r.stub.value) && r.stub.value.addr == c.stub.value.addr
    ensures r.instruction == c.instruction && r.destination == c.destination
  {
    c.(stub := Some(c.stub.value.(data := 0, jump := Unresolved)))
  }

  // ---------------------------------------------------------------------
  // Properties of the protocol

  /** A clean stub may be bound to any callee and entry. */
  lemma CleanStubAcceptsAnyBinding(s: Stub, callee: Word, entry: Address)
    requires IsClean(s)
    ensures MayBind(s, callee, entry)
  {
  }

  /** After cleaning, `set_to_interpreted` is allowed for every callee and
      entry, and binds the call as asked. */
  lemma CleanThenBind(ctx: PatchContext, c: StaticCall, callee: Word, entry: Address)
    requires ctx.lockHeld || ctx.atSafepoint
    requires c.stub.Some?
    ensures MayBind(SetStubToClean(ctx, c).stub.value, callee, entry)
    ensures SetToInterpreted(SetStubToClean(ctx, c), callee, entry).Success?
    ensures BoundToInterpreted(SetToInterpreted(SetStubToClean(ctx, c), callee, entry).value, callee, entry)
  {
    CleanStubAcceptsAnyBinding(SetStubToClean(ctx, c).stub.value, callee, entry);
  }

  /** Rebinding to the same callee and entry is allowed and changes nothing. */
  lemma SetToInterpretedIdempotent(c: StaticCall, callee: Word, entry: Address)
    requires c.stub.Some? ==> MayBind(c.stub.value, callee, entry)
    ensures var r := SetToInterpreted(c, callee, entry);
      r.Success? ==>
        && MayBind(r.value.stub.value, callee, entry)
        && SetToInterpreted(r.value, callee, entry) == r
  {
  }

  /** Binding a bound stub to a different callee or entry without cleaning
      it first violates the "MT-unsafe modification" assertions. */
  lemma RebindWithoutCleanIsRejected(c: StaticCall, a: Word, ea: Address, b: Word, eb: Address)
    requires c.stub.Some? && MayBind(c.stub.value, a, ea)
    requires (a != 0 && a != b) || ea != eb
    ensures !MayBind(SetToInterpreted(c, a, ea).value.stub.value, b, eb)
  {
  }

  /** Two bindings separated by a clean: the second one wins. */
  lemma BindCleanBind(ctx: PatchContext, c: StaticCall, a: Word, ea: Address, b: Word, eb: Address)
    requires ctx.lockHeld || ctx.atSafepoint
    requires c.stub.Some? && IsClean(c.stub.value)
    ensures var first := SetToInterpreted(c, a, ea).value;
      var second := SetToInterpreted(SetStubToClean(ctx, first), b, eb);
      && second.Success?
      && BoundToInterpreted(second.value, b, eb)
      && second.value.stub.value.addr == c.stub.value.addr
  {
  }

  /** A call whose stub has just been emitted can be bound to any callee
      and entry. */
  lemma EmittedStubIsBindable(buf: CodeBuffer, mark: Option<Address>, lp64: bool,
                              instruction: Address, destination: Address, callee: Word, entry: Address)
    requires buf.stubsEnd + ToInterpStubSize(lp64) <= buf.stubsLimit
    ensures var stub := EmitToInterpStub(buf, mark, lp64).stub;
      && stub.Some?
      && SetToInterpreted(StaticCall(instruction, destination, stub), callee, entry).Success?
  {
    CleanStubAcceptsAnyBinding(EmitToInterpStub(buf, mark, lp64).stub.value, callee, entry);
  }

  /** The emitted stub is already in the state cleaning produces. */
  lemma EmittedStubIsClean(ctx: PatchContext, buf: CodeBuffer, mark: Option<Address>, lp64: bool,
                           instruction: Address, destination: Address)
    requires ctx.lockHeld || ctx.atSafepoint
    requires buf.stubsEnd + ToInterpStubSize(lp64) <= buf.stubsLimit
    ensures var c := StaticCall(instruction, destination, EmitToInterpStub(buf, mark, lp64).stub);
      SetStubToClean(ctx, c) == c
  {
  }
}
