# Algorithm-name decomposition and static-call stub patching, in Dafny

This project models two independent sequential cores of an OpenJDK tree and
proves properties of the models.

1. **`sun.security.util.AlgorithmDecomposer.decompose`** turns a standard
   algorithm name such as `SHA256withRSA/ECB/PKCS1Padding` into the set of
   sub-elements that algorithm constraints are checked against. The name is
   split on `/`. Each non-empty piece is split on a case-insensitive `with` or
   `and`. Non-empty tokens are collected. The set is then closed under the
   five SHA spelling aliases (`SHA1`/`SHA-1`, `SHA224`/`SHA-224`,
   `SHA256`/`SHA-256`, `SHA384`/`SHA-384`, `SHA512`/`SHA-512`).
   - `pattern_split.dfy` (module `PatternSplit`) is a hand-written splitter
     for the two fixed patterns. It scans leftmost-first, tries `with` before
     `and`, and folds only US-ASCII letters, as `CASE_INSENSITIVE` does
     without `UNICODE_CASE`. `JavaSplit` follows `Pattern.split` with limit 0:
     when nothing matches it returns the input itself, and otherwise it drops
     the trailing empty strings.
   - `algorithm_decomposer.dfy` (module `AlgorithmDecomposer`) has two parts.
     `Decomposition` is a declarative reference: the tokens plus the alias
     partners of the tokens. `Decompose` is the method as written, with its
     two loops and its five pairs of alias checks, and it is proved equal to
     the reference. A null `String` is `Option.None`.
2. **The x86 to-interpreter stub protocol of HotSpot** (`compiledIC_x86.cpp`).
   - `compiled_static_call.dfy` (module `CompiledStaticCall`) covers stub
     emission, the stub size and relocation-count constants,
     `set_to_interpreted` and `set_stub_to_clean`. They form a state machine
     over immutable records. A stub is `(addr, data, jump)`. A static call
     has a destination and, through its relocations, possibly a stub.
   - `compiled_ic.dfy` (module `CompiledIC`) covers `is_icholder_call_site`
     and `cleanup_call_site`. The second one is a classification followed by
     an append to an abstract release queue.
   - `basics.dfy` (module `Basics`) holds the shared `Option`, `Result`,
     `Address` and `Word` definitions.

Modelling choices for the stub protocol:
- The emitted stub jumps to itself, and the source treats that as
  unresolved. Cleaning writes `(address)-1`. Both are the single
  `JumpDestination.Unresolved`. The code that treats the two alike is in
  `NativeJump`, which is not part of this model. Addresses are positive
  natural numbers, so no entry address can collide with `(address)-1`.
- Address 0 is C++ `NULL` and is not an `Address`. A pointer that may be
  null, such as `mark` in `emit_to_interp_stub` or the stub that
  `find_stub` returns, is an `Option<Address>`. So `mark == NULL` is
  exactly `None`, and no stub or stub section lies at address 0.
- `guarantee(stub != NULL, ...)` is always checked, so it becomes
  `Failure(StubNotFound)`. The `assert`s ("MT-unsafe modification", "mt
  unsafe call", "stub not found" in `set_stub_to_clean`) are checks on the
  caller, so they become `requires` clauses.
- `start_a_stub` fails when the stub section cannot be made large enough.
  This is modelled as `stubsEnd + size > stubsLimit`, where `stubsLimit`
  already includes any expansion the buffer could make.
- The 64-bit budget of 15 bytes is split as the source's comment splits it:
  a `movq` of 1+1+8 bytes and a `jmp` of 1+4 bytes. For the 32-bit budget of
  10 bytes the comment names only `movl; jmp`. The model reads it as a
  5-byte `movl` (an opcode and a 4-byte immediate) and the same 5-byte jump.

Two facts about the code shape the model:
- `cleanup_call_site` reads the call destination once. It does not re-check
  the destination after reading the holder (compiledIC_x86.cpp:37-41).
- The MT-safety checks of `set_to_interpreted` exist only under
  `#ifdef ASSERT` (compiledIC_x86.cpp:111-119).

## Model

| member | source | states |
|---|---|---|
| PatternSplit.MatchLength | jdk/src/share/classes/sun/security/util/AlgorithmDecomposer.java:37-39 | a match is found at an index exactly when `/` occurs there (for `with|and`: `with` or `and`, US-ASCII case ignored), and what it consumes lies inside the input |
| PatternSplit.MatchIsDelimiter | jdk/src/share/classes/sun/security/util/AlgorithmDecomposer.java:37-39 | what a match consumes is one whole alternative of the pattern |
| PatternSplit.Scan | jdk/src/share/classes/sun/security/util/AlgorithmDecomposer.java:69 | the split yields exactly one more token than separators |
| PatternSplit.ScanRebuilds | jdk/src/share/classes/sun/security/util/AlgorithmDecomposer.java:69 | putting the separators back between the tokens rebuilds the scanned input exactly; nothing is lost or reordered |
| PatternSplit.SplitRebuilds | jdk/src/share/classes/sun/security/util/AlgorithmDecomposer.java:56 | splitting and rejoining round-trips to the input |
| PatternSplit.ScanSeparatorsAreDelimiters | jdk/src/share/classes/sun/security/util/AlgorithmDecomposer.java:37-39 | every separator removed is a whole `/`, or a whole `with`/`and` in some letter case |
| PatternSplit.ScanTokensDelimiterFree | jdk/src/share/classes/sun/security/util/AlgorithmDecomposer.java:69 | leftmost scanning leaves no match of the pattern inside any token |
| PatternSplit.DropTrailingEmpty | jdk/src/share/classes/sun/security/util/AlgorithmDecomposer.java:56 | the result is a prefix of the tokens that does not end in an empty string, and only empty strings were removed |
| PatternSplit.JavaSplitTokens | jdk/src/share/classes/sun/security/util/AlgorithmDecomposer.java:56 | what `split` returns are tokens of the scan, and every non-empty token of the scan is returned |
| PatternSplit.JavaSplitTokensClean | jdk/src/share/classes/sun/security/util/AlgorithmDecomposer.java:69 | each returned string contains no match of the pattern and only characters of the input |
| AlgorithmDecomposer.Decompose | jdk/src/share/classes/sun/security/util/AlgorithmDecomposer.java:50-128 | null and empty names give the empty set, stated directly; any other name gives exactly its tokens plus the alias partners of its tokens |
| AlgorithmDecomposer.CollectTokens | jdk/src/share/classes/sun/security/util/AlgorithmDecomposer.java:56-78 | the loops collect exactly the non-empty `with`/`and` tokens of the non-empty `/`-pieces |
| AlgorithmDecomposer.AddNonEmpty | jdk/src/share/classes/sun/security/util/AlgorithmDecomposer.java:71-77 | the inner loop adds exactly the non-empty tokens and keeps what was there |
| AlgorithmDecomposer.EmptyNameHasNoElements | jdk/src/share/classes/sun/security/util/AlgorithmDecomposer.java:51-53 | the empty name has no tokens and an empty decomposition, consistent with the early return |
| AlgorithmDecomposer.AddAlias | jdk/src/share/classes/sun/security/util/AlgorithmDecomposer.java:88-93 | a pair of alias checks adds a name exactly when its partner was present, and removes nothing |
| AlgorithmDecomposer.CloseAliasesIsUnion | jdk/src/share/classes/sun/security/util/AlgorithmDecomposer.java:87-125 | the ten sequential checks compute the closed form: the set plus the partners of its members |
| AlgorithmDecomposer.DecompositionMembership | jdk/src/share/classes/sun/security/util/AlgorithmDecomposer.java:56-125 | a string is in the result exactly when it is a split token or the alias partner of one |
| AlgorithmDecomposer.NoEmptyElement | jdk/src/share/classes/sun/security/util/AlgorithmDecomposer.java:59-74 | the empty string is never in the result |
| AlgorithmDecomposer.TokensHaveNoDelimiters | jdk/src/share/classes/sun/security/util/AlgorithmDecomposer.java:56-69 | no collected token contains `/` or `with`/`and` in any US-ASCII letter case |
| AlgorithmDecomposer.SplitTokensKept | jdk/src/share/classes/sun/security/util/AlgorithmDecomposer.java:71-76 | every non-empty token of a non-empty piece is in the result; alias handling only adds |
| AlgorithmDecomposer.AliasClosed | jdk/src/share/classes/sun/security/util/AlgorithmDecomposer.java:88-125 | any name that has an alias is in the result exactly when its alias is |
| AlgorithmDecomposer.AliasPairsClosed | jdk/src/share/classes/sun/security/util/AlgorithmDecomposer.java:88-125 | for each of the five SHA pairs, the result holds one spelling exactly when it holds the other |
| AlgorithmDecomposer.Sha1WithRsaExample | jdk/src/share/classes/sun/security/util/AlgorithmDecomposer.java:42-46 | `SHA1WithRSA` decomposes into exactly `SHA1`, `RSA` and, by the alias rule, `SHA-1` |
| CompiledStaticCall.ToInterpStubSize | hotspot/src/cpu/x86/vm/compiledIC_x86.cpp:86-89 | the budget (15 bytes on 64-bit, 10 on 32-bit) equals the length of the move of the Method* plus a 5-byte jump |
| CompiledStaticCall.RelocToInterpStub | hotspot/src/cpu/x86/vm/compiledIC_x86.cpp:92-94 | the count 4 is the three relocations the stub records plus the one of the call |
| CompiledStaticCall.EmitToInterpStub | hotspot/src/cpu/x86/vm/compiledIC_x86.cpp:53-83 | no stub, and an unchanged buffer, exactly when the space cannot be reserved; otherwise a clean stub (data 0, unresolved jump) at the reserved base, within the budget and the reservable space, the reservable bound and instructions mark kept, with three relocations appended, the first tying the stub to `mark` or, when it is null, to the instructions mark |
| CompiledStaticCall.SetToInterpreted | hotspot/src/cpu/x86/vm/compiledIC_x86.cpp:96-127 | fatal `StubNotFound` exactly when the call has no stub; otherwise, given a stub that is unbound or bound to the same callee and entry, the stub holds `callee` and jumps to `entry`, and the call now targets the stub |
| CompiledStaticCall.SetStubToClean | hotspot/src/cpu/x86/vm/compiledIC_x86.cpp:129-139 | under the lock or at a safepoint, the stub goes back to data 0 and an unresolved jump at the same address; the call is untouched |
| CompiledStaticCall.CleanThenBind | hotspot/src/cpu/x86/vm/compiledIC_x86.cpp:129-139 | after cleaning, the binding preconditions hold for any callee and entry, and binding succeeds |
| CompiledStaticCall.SetToInterpretedIdempotent | hotspot/src/cpu/x86/vm/compiledIC_x86.cpp:115-126 | rebinding to the same callee and entry is permitted and leaves the state unchanged |
| CompiledStaticCall.RebindWithoutCleanIsRejected | hotspot/src/cpu/x86/vm/compiledIC_x86.cpp:115-118 | binding a bound stub to another non-zero callee or another entry without cleaning fails the MT-safety assertions |
| CompiledStaticCall.BindCleanBind | hotspot/src/cpu/x86/vm/compiledIC_x86.cpp:121-138 | bind, clean, bind: the second binding is the one observed, on the same stub |
| CompiledStaticCall.EmittedStubIsBindable | hotspot/src/cpu/x86/vm/compiledIC_x86.cpp:74-76 | a freshly emitted stub exists and accepts any first binding |
| CompiledStaticCall.EmittedStubIsClean | hotspot/src/cpu/x86/vm/compiledIC_x86.cpp:74-76 | with both sentinels (the jump to itself and `(address)-1`) modelled as `Unresolved`, the emitted stub is already in the state cleaning produces |
| CompiledIC.CleanupCallSite | hotspot/src/cpu/x86/vm/compiledIC_x86.cpp:35-42 | cleanup only appends, at most one entry, and that entry is the site's cached-value word |
| CompiledIC.IsICHolderCallSite | hotspot/src/cpu/x86/vm/compiledIC_x86.cpp:44-48 | a site is in the holder state exactly when its call destination is one of the icholder entries; the test is a pure predicate, so asking it changes no queue and no site |
| CompiledIC.CleanupActsIffHolder | hotspot/src/cpu/x86/vm/compiledIC_x86.cpp:35-48 | cleanup changes the queue exactly when `is_icholder_call_site` holds, and then appends the holder |
| CompiledIC.CleanupAllQueuesHolders | hotspot/src/cpu/x86/vm/compiledIC_x86.cpp:35-42 | cleaning many sites keeps the old queue as a prefix, appends one entry per holder-state site, queues every such holder and nothing else |

## Left out

- `jdk/src/windows/native/sun/windows/awt_TextArea.cpp` is not part of this model. It is Win32 window-procedure and JNI glue.
- An entry equal to the stub's own jump address leaves a jump to itself, which the code then reads as unresolved. The model keeps such a binding as `Entry(entry)`, because interpreter entries never lie inside a stub.
- `CompiledStaticCall::verify` is not modelled. It relies on `is_clean`, `is_call_to_compiled`, `is_call_to_interpreted` and `NativeCall::verify`, none of which are part of this model.
- `TraceICs` printing in `set_to_interpreted` is output only and is not modelled.
- Atomicity and memory ordering are not modelled. This covers `set_destination_mt_safe` and the data-before-jump store order. Every write is sequential.
- The multiprocessor alignment check is not modelled.
- Instruction encoding, `MacroAssembler` and `CodeBuffer` internals are not modelled. Emission is described only by its size, its relocations and the initial stub state. Buffer expansion is folded into `stubsLimit`.
- The internals of `is_icholder_entry` are not modelled. It is represented by a set of icholder entry addresses passed in as a parameter.
- `InlineCacheBuffer::queue_for_release` is modelled as an append to a sequence. Draining at a safepoint is not modelled.
- Java strings are sequences of UTF-16 code units and may hold unpaired surrogates. Here a string is a sequence of Dafny `char`s, which are Unicode scalar values, so a string with a lone surrogate cannot be represented. The delimiters are all ASCII, so splitting gives the same result on every string that can be represented.
- General `java.util.regex` semantics and `HashSet` hashing are not modelled. Only the two fixed patterns are, and sets are mathematical sets. `split` never returns null strings, so the null-token checks have no counterpart.
- CompiledStaticCall.SetToInterpreted: the MT-safety assertions exist only in debug builds. The model makes them preconditions, so the unchecked behaviour of product builds on a racing rebind is not described.
- CompiledStaticCall.EmitToInterpStub: only the first of the three appended relocations is pinned down by its contract. The other two (the metadata relocation of the move and the runtime-call relocation of the jump) are counted but not described.
