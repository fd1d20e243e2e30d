# A verified model of the RT-Thread SDK's hard cores

Dafny models of nine parts of the SDK, each in the form of its source, with proofs of what it is for. `dafny verify dfyconfig.toml`
checks all of it.

| part | files |
|---|---|
| finsh heap: first-fit allocator with headers inside the arena, and its garbage collector | `HeapLayout`, `Heap` |
| finsh language: parser, type pass, compiler, stack machine, and a typed line from tokens to its value | `Machine`, `Syntax`, `Compiler`, `Correctness`, `Vm`, `NodeTable`, `CodeGen`, `Grammar`, `Build`, `ParserSteps`, `Parser`, `Shell` |
| POSIX reader/writer lock, as interleaved steps of any number of threads | `RwLock` |
| DMA memory copy: descriptor chains refine a plain copy | `DmaCopy` |
| `fnmatch` as `find` calls it | `Glob` |
| argument splitting of msh, in place | `MshSplit` |
| AES/DES sessions on a shared engine with a one-entry cache | `CesaSessions`, `CesaDriver` |
| clock registers: suspend/resume, setting and re-reading a rate | `ClockPower`, `ClockRate` |
| DMA bump allocator in 32-bit arithmetic | `DmaMem` |
| shared definitions | `Common` |

## How things are modelled

- **Heap.** A pointer is an offset in the arena, NULL is -1, which like the C null pointer compares below every block. Memory holds
  a word at each offset; only offsets divisible by 4 are used for headers. The arena has any size that is a multiple of 8 and at
  least 8. The state is explained by a sequence of *tiles* that covers the arena exactly. The invariant that makes the code right is
  that the topmost tile is always free: a freed block is then never put at the end of the free list, where `finsh_block_insert`
  would leave its stale `next` in place (`HeapLayout.NeverLast`). `View` is the client's side of the heap: a map from blocks to data.
- **finsh language.** `Expr` is the double-word expression language with its left-to-right meaning `Eval`; `Node` the tree the parser
  builds; `Instr` the byte code. Arithmetic, the called functions and the symbol tables are parameters (`Env`, `Symbols`). Text and
  stack are memory of their own. The parser starts from tokens; `Print` writes an expression without parentheses.
- **A finding about finsh.** `finsh_type_check` never gives a system call a data type, so the node of a call, and of every operator whose
  leftmost leaf is a call, has none either, and `finsh_compile` then emits *no instruction* for that operator: `f() + 1` leaves two
  values on the stack. `Typed` is the exact condition under which all instructions are emitted (`FinshCorrectness.StrictIffTyped`),
  `FinshCorrectness.LeakedSlots` the exact height the machine's stack then has for every expression, and `FinshCorrectness.LeaksSpoil`
  the consequence: one lost binary operator or assignment is enough for the result never to be right. An assignment whose left side
  has no data type also loses its instructions, but sets an error while it is compiled (`FinshCompiler.CheckedFails`), so
  `finsh_run_line` does not start the machine. A call without parameters passes one zero, as the code does.
- **Reader/writer lock.** Each C statement under the mutex is one step. The mutex is exclusive; a condition wait may end at any time with
  any result, also before it has released the mutex. The plain and the timed calls differ only there, so `Acquire` stands for both.
- **Glob.** A result `OverRead` stands for reading behind the end of the pattern or of the name. In the code a second `*` in a run takes
  a character of its own: `a**b` does not match `ab`, and reads behind the end of `a`. `Fine` is exactly the set of patterns for which
  the code is right on all names; `Safe`, which also says which patterns may end in a lone backslash, exactly those it never over-reads.
- **DMA copy.** The engine copies the items of a block one after the other; a chain ends with a descriptor that is not linked or has no
  successor. The control word is kept as the fields that matter. A copy of no bytes builds no descriptor but still starts the engine on
  the old first one; the contract of `DmaCopy.Channel.MemToMem` says so.
- **Crypto sessions.** The reference gives every session an engine of its own. The refinement excludes two things. A request refused for
  its algorithm has already stored its work mode, so a run must not make such a request with another work mode on a configured session.
  `CesaSessions.HalfDoneExact` tells when one does harm, against what was last accepted: exactly if the session is not the kept one;
  `CesaSessions.HalfDoneShows` is a run whose outputs differ. And a saved chaining value that is all zero is taken for none, so data
  must not leave one, unless the initial value is all zero too: exactly then it does no harm (`CesaSessions.TakenOverExact`).
- **Clocks.** A register word is the set of the positions of its one bits; `Num` is its value. The second gate of a clock is neither
  saved nor restored by the code, so its bits count as covered only if some other field covers them.

## Model

| member | source | states |
|---|---|---|
| `HeapLayout.CarveKeepsLayout` | shell/finsh_heap.c:213-227 | Taking a block from a free tile keeps the arena tiled, no two free tiles adjacent and the topmost tile free. |
| `HeapLayout.ReleaseKeepsLayout` | shell/finsh_heap.c:229-279 | Freeing and merging keeps all of that and takes exactly the freed block off the allocated list. |
| `HeapLayout.NeverLast` | shell/finsh_heap.c:147-208 | In a heap whose topmost tile is free, a freed block is never the last of the free list, so its stale link is always overwritten. |
| `HeapLayout.RunKeepsLayout` | shell/finsh_heap.c:36-279 | In every state of every run of allocations and releases from the initial heap the layout invariant holds. |
| `HeapLayout.TilesCover` | shell/finsh_heap.c:36-49 | Every byte of the arena lies in exactly one block. |
| `HeapLayout.Canonical` | shell/finsh_heap.c:229-279 | The allocated blocks determine the whole layout: coalescing leaves nothing to history. |
| `HeapLayout.ReleaseUndoesCarve` | shell/finsh_heap.c:54-109 | Freeing the block just allocated restores the layout. |
| `HeapLayout.FirstFitIs` | shell/finsh_heap.c:61-75 | First fit is the lowest free block that is long enough, and nothing else. |
| `FinshHeap.Heap.constructor` | shell/finsh_heap.c:36-49 | The initial heap is one free block and holds nothing for its clients. |
| `FinshHeap.Heap.BlockInsert` | shell/finsh_heap.c:147-181 | A block is linked in at its address-ordered place; at the end of a list it keeps whatever `next` it had. |
| `FinshHeap.Heap.BlockRemove` | shell/finsh_heap.c:186-208 | A block is unlinked; one that was not the head keeps its stale `next`. |
| `FinshHeap.Heap.BlockSplit` | shell/finsh_heap.c:213-227 | The remainder follows the block in its list, with the lengths adding up. |
| `FinshHeap.Heap.BlockMerge` | shell/finsh_heap.c:229-279 | A free block is merged with exactly those neighbours that are free. |
| `FinshHeap.Heap.Free` | shell/finsh_heap.c:96-109 | Exactly one block leaves the client's view; all other blocks keep their length and data; the invariant holds. |
| `FinshHeap.Heap.IsHeld` | shell/finsh_heap.c:121-139 | Decides whether some typed variable points to the block's data. |
| `FinshHeap.Heap.Gc` | shell/finsh_heap.c:114-142 | Keeps exactly the blocks a typed variable points to, with their data. |
| `FinshHeap.Heap.FindFit` | shell/finsh_heap.c:61-75 | The list search finds the first-fit block or nothing. |
| `FinshHeap.Heap.Allocate` | shell/finsh_heap.c:54-91 | A zeroed block is added to the view at the first fit; if none has room, after a collection; NULL only if then no free block is long enough. |
| `FinshHeap.WrappedRequests` | shell/finsh_heap.c:54-64 | The requests whose size wraps around are exactly eight; for them the remainder would land on the block itself. |
| `FinshHeap.WrappedSplit` | shell/finsh_heap.c:213-227 | For them every free block is long enough, and the two header writes leave it linked to itself and longer than the arena: on no list of blocks and in no layout. |
| `FinshMachine.BytesRoundTrip` | shell/finsh_ops.c:13-26 | A word written to the text byte by byte is read back. |
| `FinshMachine.ExecConcat` | shell/finsh_vm.c:43-52 | Running two pieces of code one after the other is running their concatenation. |
| `FinshCompiler.CheckType` | shell/finsh_compiler.c:740-882 | The type pass gives a tree the data type of its leftmost leaf. |
| `FinshCompiler.CheckedCode` | shell/finsh_compiler.c:24-738 | Type pass and code generation turn the tree of an expression in value position into its strict code. |
| `FinshCompiler.CheckedAddr` | shell/finsh_compiler.c:740-777 | In l-value position they produce the code that pushes the address. |
| `FinshCorrectness.CodeComputes` | shell/finsh_ops.c:298-450 | From any stack and memory, the full code of an expression pushes exactly its value and leaves exactly its memory effects. |
| `FinshCorrectness.AddrComputes` | shell/finsh_ops.c:298-416 | In l-value position it pushes the address instead. |
| `FinshCorrectness.StrictIffTyped` | shell/finsh_compiler.c:198-352 | The compiler emits every instruction if and only if no operator's leftmost leaf is a system call. |
| `FinshCorrectness.CompilerCorrect` | shell/finsh_compiler.c:24-738 | Compiler correctness, on trees: the code of the checked tree of a typed expression computes it. |
| `FinshCorrectness.CompilerCorrectAddr` | shell/finsh_compiler.c:24-738 | The same for l-value positions. |
| `FinshCorrectness.LeakedSlots` | shell/finsh_compiler.c:198-352 | The height of the machine's stack after the emitted code of any expression: one more than before, and one more for each binary operator or assignment that lost its instruction. |
| `FinshCorrectness.LeaksSpoil` | shell/finsh_compiler.c:198-352 | If there is such an operator, the result is wrong for all operators, calls, stacks and memories. |
| `FinshCorrectness.DroppedUnary` | shell/finsh_compiler.c:248-252 | A complement or dereference that lost its instruction leaves its operand: right exactly where the operator would change nothing. |
| `FinshCompiler.CheckedFails` | shell/finsh_compiler.c:292-350 | Code generation sets the error for unknown types exactly if some assignment's left side has a system call as its leftmost leaf. |
| `FinshCorrectness.CallPlusOne` | shell/finsh_compiler.c:198-203 | `f() + 1` compiles without its addition and leaves two values. |
| `FinshCorrectness.CodeFits` | shell/finsh_vm.c:28-53 | The code never underflows and needs at most two slots more than the tree has nodes. |
| `FinshCorrectness.ProgramComputes` | shell/finsh_compiler.c:900-915 | The code of a statement list leaves the last value alone on the stack and memory as after sequential execution. |
| `FinshCorrectness.ProgramFits` | shell/finsh_compiler.c:900-915 | The code of a statement list fits a stack of two slots more than its nodes. |
| `FinshVm.Vm.CallN` | shell/finsh_ops.c:425-450 | Parameters are popped from last to first and passed in order; the result replaces them and the function. |
| `FinshVm.Vm.Step` | shell/finsh_vm.c:43-52 | One fetch and dispatch does what the instruction means. |
| `FinshVm.Vm.Run` | shell/finsh_vm.c:28-53 | The loop ends, with the stack and memory the code means. |
| `FinshNodeTable.NodeTable.TypeCheck` | shell/finsh_compiler.c:740-882 | In the node table, the pass sets the attributes of exactly the tree's nodes. |
| `FinshCodeGen.CodeGen.Compile` | shell/finsh_compiler.c:24-738 | The recursive visit appends exactly the encoded code of the tree to the text. |
| `FinshCodeGen.CodeGen.Run` | shell/finsh_compiler.c:884-918 | The text segment holds the encoded code of all statements, with pops between them, and zeros behind it; the error is set exactly for the statements of `FinshCompiler.CheckedFails`. |
| `FinshGrammar.Spine` | shell/finsh_parser.c:448-650 | An expression is its leftmost operand with its operators of one level applied from left to right. |
| `FinshGrammar.PostfixSpine` | shell/finsh_parser.c:739-788 | A postfix expression is its primary with its suffixes. |
| `FinshParser.Parser.Next` | shell/finsh_token.c:62-68 | Reads the replayed token first, then the input. |
| `FinshParser.Parser.Allocate` | shell/finsh_node.c:26-43 | The first free entry of the node table is claimed, or there is none. |
| `FinshParser.Parser.NewId` | shell/finsh_node.c:45-104 | A name becomes the node of the first symbol found for it. |
| `FinshParser.Parser.MakeSysNode` | shell/finsh_parser.c:878-892 | An operator node is put above its operands, linked as siblings. |
| `FinshParser.Parser.ProcAssign` | shell/finsh_parser.c:423-445 | If a printed expression is next, exactly it is read and its tree built; assignment associates to the right. |
| `FinshParser.Parser.ProcBinary` | shell/finsh_parser.c:448-650 | The same at each of the six binary levels, associating to the left; the following token stays available. |
| `FinshParser.Parser.ProcCast` | shell/finsh_parser.c:656-689 | The same for unary expressions; a leading parenthesis is always taken for a cast, so one with anything but a type behind it ends in an error. |
| `FinshParser.Parser.ProcUnary` | shell/finsh_parser.c:691-736 | The same for prefix operators; behind `+` the operand's tree is built as it is, behind `-` it is subtracted from zero. |
| `FinshParser.Parser.ProcPostfix` | shell/finsh_parser.c:739-792 | The same for `++`, `--` and calls behind an operand. |
| `FinshParser.Parser.ProcPrimary` | shell/finsh_parser.c:795-842 | Names and literals become leaves. |
| `FinshParser.Parser.ProcParamList` | shell/finsh_parser.c:845-875 | A printed parameter list is read and built as a sibling chain. |
| `FinshParser.Parser.ProcVariableDecl` | shell/finsh_parser.c:77-242 | A declaration of one new variable with an initial value enters its name and builds the assignment of that value. |
| `FinshParser.Parser.ProcExprStatement` | shell/finsh_parser.c:393-411 | A statement and its semicolon are read. |
| `FinshParser.Parser.Run` | shell/finsh_parser.c:897-978 | The parser inverts the printer: for every printed line that fits the node table it rebuilds the trees of all statements as one chain; on any other line it ends, and an error once set stays set. |
| `FinshShell.RunLine` | shell/shell.c:360-402 | A printed line of at most 16 nodes whose code fits the text segment is parsed without error, and run exactly if compiling it sets none; typed statements always are: slot 0 then holds the last value, memory is as after running them in order. Other lines that are run leave one more slot for each lost operator. |
| `RwLock.StepKeepsInv` | compat/posix/pthread_rwlock.c:138-351 | Every statement of every thread keeps the invariant on mutex, reference count, wait counts and call progress. |
| `RwLock.RunsAreSafe` | compat/posix/pthread_rwlock.c:138-351 | After every run readers and writers exclude each other, the reference count tells which, and with the mutex free the wait counts are the numbers of sleepers. |
| `RwLock.WriterPreference` | compat/posix/pthread_rwlock.c:150-164 | No read lock is ever given while a writer holds or awaits the lock, no write lock while anyone holds it. |
| `RwLock.CallsReport` | compat/posix/pthread_rwlock.c:138-285 | A call that returns 0 gained exactly one lock of its mode, any other none; an unlock gave up exactly one. |
| `RwLock.StepRefines` | compat/posix/pthread_rwlock.c:138-351 | Every statement is a stutter or one step of an atomic reader/writer lock. |
| `RwLock.UnlockWakes` | compat/posix/pthread_rwlock.c:299-315 | An unlock that frees the lock wakes a waiting writer if there is one, else all waiting readers. |
| `DmaCopy.VisitsUnique` | drivers/dma/fh_dma.c:861-877 | What the engine runs from a start address is determined. |
| `DmaCopy.ChainVisits` | drivers/dma/fh_dma.c:836-843 | The engine visits exactly the blocks of the chain, in order, and stops. |
| `DmaCopy.ChainCopies` | drivers/dma/fh_dma.c:741-850 | Executing the blocks from any one on copies the rest of the buffer and nothing else. |
| `DmaCopy.LliSize` | drivers/dma/fh_dma.c:647-663 | The number of descriptors is the least that holds all items. |
| `DmaCopy.Width` | drivers/dma/dma_memcpy.c:70-84 | The item width is the widest one that divides both addresses and the count. |
| `DmaCopy.Channel.GetDesc` | drivers/dma/fh_dma.c:327-400 | Returns a run of descriptors inside the table and counts it as taken, or none exactly when neither end has room. |
| `DmaCopy.Channel.BuildChain` | drivers/dma/fh_dma.c:741-850 | Each descriptor has its address, length and link, nothing wraps, and no other descriptor changes. |
| `DmaCopy.Channel.MemToMem` | drivers/dma/dma_memcpy.c:61-122 | The engine visits a finite chain of aligned blocks within the limit whose execution makes dst equal src on exactly the count, in any memory; or there was no room. |
| `Glob.Fnmatch` | compat/linux/find.c:153-226 | The pointer code computes the matching function, ending for every pattern and name. |
| `Glob.FnParsed` | compat/linux/find.c:153-226 | On names without slashes, matching depends on the pattern's items only; the first-character filter is invisible. |
| `Glob.FnmatchRight` | compat/linux/find.c:153-226 | A fine pattern matches exactly the names that are a concatenation of parts covered by its items, a leading period only explicitly; nothing is over-read. |
| `Glob.FnmatchExact` | compat/linux/find.c:186-209 | The patterns the code gets right for all names are exactly those in which no star run contains a further star, except as the pattern's last character. |
| `Glob.DoubleStar` | compat/linux/find.c:191-194 | `a**b` should match `ab` and does not. |
| `Glob.OverReadExact` | compat/linux/find.c:153-226 | Some name makes the code read behind the end of the pattern or of the name exactly if a run of `*` and `?` has a further star behind its first one, not as the pattern's last character, or if the pattern ends in a lone backslash that stands behind no such run. |
| `Glob.BehindTheEnd` | compat/linux/find.c:176-194 | Two stars are enough: `a**b` reads behind the end of `a`; and a backslash behind `a` reads behind the end of the pattern. |
| `MshSplit.SplitJoined` | shell/msh.c:92-160 | Splitting undoes quoting. |
| `MshSplit.SplitPassable` | shell/msh.c:122-146 | Every argument of any line is one that can be quoted, except perhaps a last one without closing quote. |
| `MshSplit.SplitExact` | shell/msh.c:92-160 | A list of up to eight arguments comes back from its line if and only if each can be written plainly or between quotes. |
| `MshSplit.QuoteEnd` | shell/msh.c:129-140 | The scan finds the first quote not hidden by a backslash. |
| `MshSplit.MshSplit` | shell/msh.c:92-160 | In place: after the call, `argv` points to the arguments of the line, each a C string in the buffer. |
| `CesaSessions.RunKeepsInv` | drivers/cesa/drv_ades.c:89-221 | Every proper run keeps: the engine has the mode and key of the kept session if that is configured. |
| `CesaSessions.EngineSetUp` | drivers/cesa/drv_cesa_aux.c:53-97 | After any proper run, a process call starts with the mode and key its user last asked for, also after dangling and reuse. |
| `CesaSessions.SharingIsInvisible` | drivers/cesa/drv_ades.c:184-221 | All outputs of a run are those of sessions with an engine of their own, if no refused request changes the work mode of a configured session and no data leaves an all-zero chaining value in place of another initial one. |
| `CesaSessions.HalfDoneExact` | drivers/cesa/drv_ades.c:17-64 | After a request refused for its algorithm, the session's next process call starts with the mode and key last accepted exactly if the session is the kept one or the request asked for the same work mode. |
| `CesaSessions.HalfDoneOutput` | drivers/cesa/drv_ades.c:184-221 | In these cases the call gives the output of the reference. |
| `CesaSessions.HalfDoneShows` | drivers/cesa/drv_ades.c:17-64 | A run with such a request whose outputs are not those of the reference. |
| `CesaSessions.ZeroIvExact` | drivers/cesa/hw_ades.c:162-184 | A session taken over goes on from its last chaining value exactly if that is not all zero, or the initial one is. |
| `CesaSessions.TakenOverExact` | drivers/cesa/hw_ades.c:162-184 | In every world that keeps the invariant of `RunKeepsInv`, a ready session whose engine was taken over is given the chaining value its data left exactly under that condition. |
| `CesaDriver.Driver.CheckKeep` | drivers/cesa/drv_cesa_aux.c:53-97 | Asked for the same session it drops it if kept, for a different one it keeps it if not, for both it does whichever applies; the answer tells whether the kept value changed. |
| `CesaDriver.Driver.HwConfig` | drivers/cesa/hw_ades.c:93-192 | The registers get mode, key and chaining value of the session; an impossible mode is reported only then. |
| `CesaDriver.Driver.Destroy` | drivers/cesa/drv_ades.c:109-123 | The session goes; the kept value is left pointing to it unless it did already. |
| `CesaDriver.Driver.Config` | drivers/cesa/drv_ades.c:125-146 | The session is rewritten as far as the request is accepted, and dropped from the cache if it is. |
| `CesaDriver.Driver.ConfigOper` | drivers/cesa/drv_ades.c:148-182 | A change of direction forgets the saved chaining value and drops the session from the cache. |
| `CesaDriver.Driver.StoredKey` | drivers/cesa/drv_ades.c:325-342 | A new key mapping drops the session from the cache. |
| `CesaDriver.Driver.Process` | drivers/cesa/drv_ades.c:184-221 | The engine is set up unless the session is kept; a refused call leaves only that; otherwise the output is the engine's and its last chaining value is saved. |
| `ClockPower.WriteRead` | drivers/clock/fh_clockv2.c:35-104 | A field that was read is never refused, and writing it back restores its bits. |
| `ClockPower.ClkRestored` | drivers/clock/fh_clockv2.c:106-147 | Configuring a clock from saved values takes over exactly its bits, even where its masks overlap. |
| `ClockPower.ResumedMixes` | drivers/clock/fh_clockv2.c:436-451 | Resuming all clocks takes over exactly the covered bits. |
| `ClockPower.ClockTree.Suspend` | drivers/clock/fh_clockv2.c:422-435 | Every clock has the values the registers have. |
| `ClockPower.ClockTree.PowerCycle` | drivers/clock/fh_clockv2.c:422-451 | Suspend, any loss, resume: every bit of a clock that loses power is as before, every other bit is as it came back. |
| `ClockRate.ReadsBack` | drivers/clock/fh_clockv2.c:35-104 | A number written to a field is read back if and only if each of its bits has a place in the mask. |
| `ClockRate.ContiguousFits` | drivers/clock/fh_clockv2.c:44-53 | For a mask without gaps these are exactly the numbers the driver accepts. |
| `ClockRate.ClkReadsBack` | drivers/clock/fh_clockv2.c:106-147 | A clock whose values fit masks that are apart reads back as written. |
| `ClockRate.RateExact` | drivers/clock/fh_clockv2.c:359-417 | A divided rate is the one asked for if and only if the remainder is below the effective divider. |
| `ClockRate.RateTree.SetRate` | drivers/clock/fh_clockv2.c:596-717 | Parent and divider are chosen as planned, stored and written to the registers. |
| `ClockRate.RateTree.Get` | drivers/clock/fh_clockv2.c:719-750 | The clock's fields are read from the registers and its rate computed from its parent's. |
| `ClockRate.RateTree.SetThenGet` | drivers/clock/fh_clockv2.c:596-750 | A rate that is set is read back if and only if the parent's rate allows it, and no bit outside the clock's masks changes. |
| `DmaMem.AlignCheck` | drivers/dma/dma_mem.c:60-80 | Accepts exactly the powers of two below 2^28. |
| `DmaMem.LinesApart` | drivers/dma/dma_mem.c:119-169 | No two blocks have a byte on the same cache line. |
| `DmaMem.Manager.Init` | drivers/dma/dma_mem.c:82-116 | Succeeds exactly for a non-empty region that ends below the last address, with a usable alignment. |
| `DmaMem.Manager.Malloc` | drivers/dma/dma_mem.c:119-169 | Returns an aligned block behind all others inside the region, or NULL exactly when no aligned place has room; no bound wraps. |

## Left out

- FinshHeap.Heap.Allocate: not stated for the eight request sizes 0xFFFFFFF1 to 0xFFFFFFF8, whose aligned size plus header wraps to zero; `FinshHeap.WrappedRequests` shows they are the only ones, `FinshHeap.WrappedSplit` what they do to the heap.
- FinshHeap.Heap.Free: pointers that are not the data of an allocated block; the source does not check them either.
- FinshParser.Parser.Run: of lines that are not printed ones, and of those with declarations, only termination, safety and that errors stay set are stated; `FinshParser.Parser.ProcVariableDecl` covers declarations of one variable with an initial value, others are read without a statement about the result.
- FinshParser.Parser.ProcVariableDecl: the type of a variable (all are double words here), names longer than the variable table holds, and the null pointer the source follows when a declaration with several variables runs out of nodes.
- Parenthesised sub-expressions and casts have no printed form: the parser takes every leading parenthesis for a cast. Character and string literals are not printed either.
- Byte- and word-wide expressions, `void` variables, and `++`/`--` on system variables: the machine is modelled for double words.
- Characters to tokens, and symbol lookup in linker tables: the parser starts from tokens and a symbol table.
- RwLock: calls interleave, so the lock is modelled as steps on values, not as methods of a class.
- RwLock.UnlockWakes: liveness. A writer whose timed wait ends leaves readers asleep that it held up, and signals can be lost between unlocking and waiting; only safety is claimed. Lazy initialisation and destruction are not modelled, counters are unbounded.
- DmaCopy.Channel.MemToMem: decreasing and fixed addresses, reload flags, several queued transfers, handshaking and cache maintenance; a failed descriptor request is a result here and an assertion in the source.
- Glob.FnmatchRight: names with slashes, patterns ending in a lone backslash (the standard leaves them unspecified), case folding and the other flags `find` does not set. Size and depth filters of `find` are not modelled.
- MshSplit.MshSplit: the message printed when there are more than eight arguments.
- CesaSessions.SharingIsInvisible: time-outs of the engine, self-key generation, external DMA and calls from several threads at once; the key store and the ciphers are abstract. The key store is always present: without FH_USING_EFUSE the source leaves the key registers as they were for a session with a stored key.
- ClockPower.ClockTree.PowerCycle: phase clocks, which are read with one mask and written with another.
- ClockRate.RateTree.SetRate: fixed, PLL and phase clocks, the sensor clock's special case, and a zero product of fixed divider and rate, which the source divides by.
- DmaMem.Manager.Malloc: names and the dump of all blocks.
- The other drivers, the file systems, the network and media stacks and the board code are not modelled.
