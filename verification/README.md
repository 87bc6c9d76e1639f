# Verified models of the BPF tool chain

A Dafny model of the algorithms in this repository that transform or interpret data: the
control-flow graph builder, the BTF minimiser and the skeleton layout of bpftool, the DWARF
line-number machine of blazesym, the JSON writer, line-info lookup, the flat result buffer, bit-field
extraction and binary searches, and the VLAN helpers and the connect-latency tracker of the XDP and
tracing programs. `dafny verify dfyconfig.toml` checks everything.

Code that updates state is modelled by classes and methods and proved against a specification; the
theorems are lemmas about that specification. Errors are values: `Option`, `Result`, or an outcome
with a constructor for a failure and one for a panic.

**Control-flow graph** (`Bpf`, `CfgSpec`, `Cfg`, `CfgTheorems`). `Cfg.Cfg.Build` produces exactly the
graph that `CfgSpec.Graph` describes, for every program whose jumps stay inside the instruction array
(`MemorySafe`: the code dereferences targets without a check). For a function that the kernel would
accept (`WellFormed`: jumps stay inside it, it does not run off its end, nothing in it is dead) every
execution projects to a path of the graph. The graph is exact if and only if EXIT occurs only at the end of the function and
no call with an offset precedes a leader; then every path is the path of an execution. The step
relation is that of section 4.3 of RFC 9669, with 64-bit immediate loads taking two slots.

**BTF minimiser** (`Btf`, `BtfMark`, `BtfEnds`, `BtfRecord`, `BtfClosure`, `BtfMinimise`, `BtfTheorems`,
`BtfField`, `BtfGen`, `BtfMatch`, and `BtfLaws` and `BtfMatchLaws`, which say what the specification means in terms of
the table alone). A type table is a sequence of types, the marks are a set of types and a set of members.
The marks left by any list of relocations are the least closed marks that satisfy them all, and in the generated table
every recorded field, size and enumeration relocation has the value it has in the original, and a local type matches,
or is compatible with, a recorded type exactly as it is there. The recursion returns exactly when no chain
of its calls comes back to a visit (`Chains`, `BtfEnds`); that is all that is asked of a table, and only for the visits
a relocation makes. `BtfGen.SelfParameterLoops` is a table on which matching does not return. `BtfField` has the values
of field relocations and the bit-field read made with them.

**Skeleton layout** (`Skeleton`). The generated structure puts every variable at its recorded offset if
and only if those offsets are multiples of the host's alignments.

**Line-number machine** (`Leb128`, `LineMachine`, `LineReference`, `LineProgram`, `LineFilter`, `Search`).
The byte-coded machine is proved against a reference interpreter of section 6.2.5 of DWARF Version 4,
instruction by instruction and for whole programs, and the run that keeps only the rows for a list of addresses against the full run. Rust's checked
arithmetic and indexing are modelled as a panic outcome.

**JSON** (`JsonWriter`, `Json`, `JsonRoundTrip`). The writer's single separator byte agrees with a stack
of flags; what it writes is read back by a parser of RFC 8259 as the same value if and only if no
string holds a control character without a short escape.

**Others**: `LineInfo`, `FlatBuffer`, `Bitfield`, `Vlan`, `ConnectTracker`.

Where code and documentation disagree, the model follows the code: `fixed_advance_pc` is executed as an
instruction of one byte, special opcodes scale the line increment, the registers that describe one row are not
cleared after it, the sort of line rows is never
reached, the fallthrough edge of an EXIT block leads to the next block, `vlan_tag_pop` returns all 16 bits of the
tag although it is documented to return the VLAN identifier, and the latency filter of the tracker
compares the clock, not a latency.

## Model

| member | source | states |
|---|---|---|
| `Cfg.FuncNode.AppendBb` | lib/bpftool/src/cfg.c:88-112 | the block list stays strictly ordered by head and gains exactly the new head, once |
| `Cfg.FuncNode.PartitionBbHead` | lib/bpftool/src/cfg.c:165-197 | the heads are exactly the function start, the jump targets and the successors of conditional jumps |
| `Cfg.FuncNode.PartitionBbTail` | lib/bpftool/src/cfg.c:199-214 | each block ends right before the next head, the last one at the function end; indices follow the list after the two fixed ones |
| `Cfg.FuncNode.AddSpecialBb` | lib/bpftool/src/cfg.c:216-231 | the entry block is put first and the exit block last |
| `Cfg.FuncNode.PartitionBb` | lib/bpftool/src/cfg.c:216-241 | the three passes cut the function into blocks at its leaders |
| `Cfg.FuncNode.SearchBbWithHead` | lib/bpftool/src/cfg.c:243-254 | the position found is a real block with that head; none is found only if there is none |
| `Cfg.FuncNode.AddBbEdges` | lib/bpftool/src/cfg.c:277-331 | every block gets exactly the successor edges of its last instruction, and nothing but edges changes |
| `Cfg.FuncNode.AddBlockEdges` | lib/bpftool/src/cfg.c:297-328 | one iteration gives one block its edges and leaves the others alone |
| `Cfg.Cfg.AppendFunc` | lib/bpftool/src/cfg.c:63-86 | the function list stays ordered by start, duplicate-free and numbered, and gains exactly the new start |
| `Cfg.Cfg.CollectFuncs` | lib/bpftool/src/cfg.c:136-148 | functions start exactly at slot 0 and at the targets of calls |
| `Cfg.Cfg.SetEnds` | lib/bpftool/src/cfg.c:150-155 | a function ends right before the next one, the last one at the last slot |
| `Cfg.Cfg.PartitionFuncs` | lib/bpftool/src/cfg.c:131-158 | the functions cut the instruction array at 0 and at the call targets, with distinct indices below their number |
| `Cfg.BuildFunc` | lib/bpftool/src/cfg.c:343-349 | the blocks and edges of one function are complete |
| `Cfg.Cfg.Build` | lib/bpftool/src/cfg.c:333-352 | the result is the graph of the program, for every program whose jumps stay inside the array |
| `CfgTheorems.BlocksPartition` | lib/bpftool/src/cfg.c:165-241 | every slot of a function whose leaders lie inside it is in exactly one block |
| `CfgTheorems.PartitionIff` | lib/bpftool/src/cfg.c:165-241 | the blocks that are built are non-empty and partition the function if and only if all leaders lie inside it, dead code or not |
| `CfgTheorems.BlockIndices` | lib/bpftool/src/cfg.c:199-231 | block indices are a bijection with the numbers below the block count |
| `CfgTheorems.FunctionsPartition` | lib/bpftool/src/cfg.c:131-158 | every slot of the array lies in exactly one function |
| `CfgTheorems.NotLeaderStays` | lib/bpftool/src/cfg.c:165-214 | in such a function a slot starts a new block if and only if it is a leader |
| `CfgTheorems.NoJumpInside` | lib/bpftool/src/cfg.c:165-214 | jumps and EXIT are only at block ends, although no leader is made after JA or EXIT |
| `CfgTheorems.HeadsIff` | lib/bpftool/src/cfg.c:165-197 | a slot is the head of a block if and only if the function starts there or one of its jumps can step to it |
| `CfgTheorems.EntersAtStart` | lib/bpftool/src/cfg.c:277-288 | the entry block has index 0 and leads, by a fallthrough edge, to the block that holds the first slot and nowhere else |
| `CfgTheorems.LeavesAtEnd` | lib/bpftool/src/cfg.c:289-294 | the exit block has index 1, is reached from the block that holds the last slot, and leads nowhere; no other block records predecessors |
| `CfgTheorems.EdgesMean` | lib/bpftool/src/cfg.c:295-328 | a block falls through to the next unless it ends in JA, and has a jump edge to the block at its target if and only if it ends in a jump other than EXIT |
| `CfgTheorems.StartsAreCallees` | lib/bpftool/src/cfg.c:131-148 | functions start at slot 0 and wherever an instruction 0x85 with source register 1 leads, and nowhere else |
| `CfgTheorems.Opcodes` | lib/bpftool/src/cfg.c:160-163 | the kinds of jumps in numbers: class 5 or 6 in the low three bits, operation 0, 8 or 9 in the high four |
| `CfgTheorems.RunStaysInside` | lib/bpftool/src/cfg.c:165-214 | an execution never leaves its function and never executes the second slot of a wide load |
| `CfgTheorems.StepFollowsGraph` | lib/bpftool/src/cfg.c:277-331 | a step inside a block goes to the next instruction, a step from its last one to the head of a successor block |
| `CfgTheorems.RunsArePaths` | lib/bpftool/src/cfg.c:277-331 | every execution of a function projects to a path of its graph |
| `CfgTheorems.ExactIff` | lib/bpftool/src/cfg.c:297-328 | all edges lead somewhere and are real steps if and only if EXIT is only last and no call with an offset precedes a leader |
| `CfgTheorems.PathsAreRuns` | lib/bpftool/src/cfg.c:277-331 | under that condition every path is the path of some execution |
| `CfgTheorems.EarlyExitIsNotExact` | lib/bpftool/src/cfg.c:304-308 | a function with an early EXIT whose graph is not exact |
| `BtfRecord.Recorder.MarkType` | lib/bpftool/src/gen.c:1724-1797 | returns whenever no chain of its calls comes back to a visit; succeeds if and only if every kind reached is supported, and then marks exactly the types reached |
| `BtfRecord.Recorder.MarkParams` | lib/bpftool/src/gen.c:1781-1788 | the parameter loop visits all remaining parameters or fails the whole visit |
| `BtfRecord.Recorder.MarkTypeMatch` | lib/bpftool/src/gen.c:1861-1948 | the same for matching, which also marks all members of composites matched by value |
| `BtfRecord.Recorder.MatchRefs` | lib/bpftool/src/gen.c:1902-1940 | visits the references of any type but a composite matched by value, up to the first failure |
| `BtfRecord.Recorder.MatchMembers` | lib/bpftool/src/gen.c:1883-1901 | the member loop marks every member and visits its type, or fails the whole visit |
| `BtfRecord.Recorder.RecordFieldRelo` | lib/bpftool/src/gen.c:1799-1851 | succeeds if and only if every kind along the access is supported, and then adds exactly the marks of the access |
| `BtfRecord.Recorder.RecordStep` | lib/bpftool/src/gen.c:1815-1848 | one accessor leaves the same total outcome for the remaining accessors |
| `BtfRecord.Recorder.SkipMods` | lib/bpftool/src/gen.c:1816-1820 | the loop ends at the type behind all modifiers and typedefs |
| `BtfEnds.ReturnsIff` | lib/bpftool/src/gen.c:1724-1948 | a visit returns, for some depth of recursion, if and only if no chain of the calls it makes comes back to a visit |
| `BtfEnds.RankedIff` | lib/bpftool/src/gen.c:1724-1948 | that is so if and only if the calls descend in some rank |
| `BtfEnds.SupportedReturnsIff` | lib/bpftool/src/gen.c:1724-1948 | where all kinds reached are supported it is so if and only if no chain of references comes back to a visit |
| `BtfMark.VisitUnfolds` | lib/bpftool/src/gen.c:1724-1948 | what a visit reaches is its own type and what its references reach |
| `BtfMark.SuccessEnds` | lib/bpftool/src/gen.c:1724-1948 | a visit that returns success reaches nothing that runs in circles |
| `BtfLaws.PlainVisitsIff` | lib/bpftool/src/gen.c:1724-1797 | marking a type marks exactly what is reached through modifiers, typedefs, arrays and prototypes, and through pointers if they are followed |
| `BtfLaws.MatchVisitsIff` | lib/bpftool/src/gen.c:1861-1948 | matching visits exactly what is reached through references other than the members of composites behind a pointer, where an array or a prototype ends being behind one |
| `BtfLaws.RecordableIff` | lib/bpftool/src/gen.c:1969-1993 | a relocation of each kind can be recorded if and only if nothing visited is a type tag, function, variable, section or declaration tag, nor, unless types are matched, a forward declaration; a field access must also select from composites and arrays |
| `BtfLaws.CleanTableRecords` | lib/bpftool/src/gen.c:1724-1948 | in a table without these kinds every relocation of a known kind is recorded |
| `BtfLaws.EnumIsRecorded` | lib/bpftool/src/gen.c:1742-1746 | an enumeration, like any type without references, is recorded for every kind of type relocation |
| `BtfLaws.SkipsModifiers` | lib/bpftool/src/gen.c:1816-1820 | skipping leads along modifiers and typedefs to the first type that is neither |
| `BtfClosure.VisitKeepsClosed` | lib/bpftool/src/gen.c:1724-1948 | a successful visit keeps the marks closed: only pointees may be missing |
| `BtfClosure.VisitIsLeast` | lib/bpftool/src/gen.c:1724-1797 | a visit that follows no pointers marks only what every closed set must hold |
| `BtfClosure.FieldMarksKeep` | lib/bpftool/src/gen.c:1799-1851 | recording an access keeps the marks closed, loses none and marks every type and member along it |
| `BtfClosure.AccessMarksAreLeast` | lib/bpftool/src/gen.c:1799-1851 | the marks of an access are the least closed marks that keep it |
| `BtfGen.RecordReloc` | lib/bpftool/src/gen.c:1969-1993 | succeeds if and only if the types of the relocation have only supported kinds; then the marks are the least closed marks above the old ones that satisfy it |
| `BtfGen.TraceableIff` | lib/bpftool/src/gen.c:1814-1850 | whether an access can be recorded depends on its types alone, not on what is marked already |
| `BtfGen.LeastServingStep` | lib/bpftool/src/gen.c:2038-2122 | recording one relocation after the other stays at the least marks for all of them |
| `BtfMinimise.Builder.AddComposite` | lib/libbpf/src/btf.c:2090-2152 | appends an empty structure or union |
| `BtfMinimise.Builder.AddField` | lib/libbpf/src/btf.c:2169-2222 | refuses exactly a non-composite or an unencodable bit field; otherwise the last type gains one member with that offset and size |
| `BtfMinimise.Builder.AddType` | lib/libbpf/src/btf.c:1763-1788 | refuses exactly void; otherwise appends the type |
| `BtfLaws.AcceptedIff` | lib/libbpf/src/btf.c:2186-2193 | a field is accepted if and only if it has whole bytes, or 1 to 255 bits at an offset of 24 bits, and in a union offset 0 |
| `BtfLaws.AddedReadsBackIff` | lib/libbpf/src/btf.c:2210-2217 | an added field reads back if and only if its offset has 24 bits or the composite has no bit field |
| `BtfLaws.OthersReadAlikeIff` | lib/libbpf/src/btf.c:2210-2217 | the fields before it read as they did if and only if the first bit field does not follow an offset of more than 24 bits |
| `BtfMinimise.CopyComposite` | lib/bpftool/src/gen.c:2166-2197 | appends the composite with exactly its marked members, or fails if one cannot be encoded |
| `BtfMinimise.CopyMarked` | lib/bpftool/src/gen.c:2147-2207 | copies exactly the marked types, in order; the id map is strictly increasing on them and zero elsewhere |
| `BtfMinimise.GetBtf` | lib/bpftool/src/gen.c:2134-2226 | fails exactly when a marked type cannot be copied; otherwise every copy has all its references renumbered |
| `BtfLaws.CopyableIff` | lib/bpftool/src/gen.c:2134-2206 | a composite can be copied if and only if every marked member has a bit size or starts at a byte, and in a union at its start |
| `BtfLaws.OnlyReferencesChange` | lib/bpftool/src/gen.c:2124-2219 | the second pass renumbers each reference of a type and changes nothing else |
| `BtfGen.MinimizeBtf` | lib/bpftool/src/gen.c:2251-2291 | for relocations whose own visits return: succeeds exactly when every relocation can be recorded and every marked type copied; the output is generated from the least closed marks that satisfy all relocations |
| `BtfTheorems.ImagesDiffer` | lib/bpftool/src/gen.c:2153-2207 | different marked types get different ids |
| `BtfTheorems.MemberLayoutKept` | lib/bpftool/src/gen.c:2183-2197 | a copied member keeps its name, type, bit offset and bit-field size, with or without packed offsets |
| `BtfTheorems.OutputIsValid` | lib/bpftool/src/gen.c:2124-2226 | every reference in the output is the id of a type in the output |
| `BtfTheorems.OutputEnds` | lib/bpftool/src/gen.c:2124-2226 | where the visits of an original type end, those of its copy do, in every mode |
| `BtfTheorems.EndsAlike` | lib/bpftool/src/gen.c:2124-2226 | without going behind pointers, those of a copy end if and only if those of the original do |
| `BtfTheorems.SizeKept` | lib/libbpf/src/btf.c:763-816 | a marked type has the same size in the output |
| `BtfLaws.SizeIs` | lib/libbpf/src/btf.c:763-813 | the size of every kind; that of an array is the number of its elements times the size of one, if that has 32 bits |
| `BtfLaws.Scales` | lib/libbpf/src/btf.c:763-813 | counting elements on the way is multiplying at the end |
| `BtfTheorems.SkipImage` | lib/bpftool/src/gen.c:1816-1820 | skipping modifiers commutes with the id map |
| `BtfTheorems.PartImage` | lib/bpftool/src/gen.c:1822-1842 | a marked member or an array element corresponds to its image, at the same bit offset and with the same bit-field size |
| `BtfTheorems.AccessPreserved` | lib/bpftool/src/gen.c:1799-1851 | an access kept by closed marks leads in the output to the image of the same type, at the same bit offset, through a member of the same bit-field size |
| `BtfLaws.RawOffset` | lib/libbpf/src/btf.h:528-547 | a raw offset is a bit offset, or with the flag 24 bits of it below the bit size |
| `BtfLaws.OneStep` | lib/libbpf/src/relo_core.c:334-390 | a member is at its bit offset, an element at its index times the size of an element times 8 |
| `BtfLaws.TwoParts` | lib/libbpf/src/relo_core.c:334-390 | an access in two parts: the second goes on from where the first leads, and offsets add up |
| `BtfLaws.FirstAccessor` | lib/libbpf/src/relo_core.c:329-332 | the first accessor indexes the root like an array of it |
| `BtfGen.FollowPreserved` | lib/libbpf/src/relo_core.c:302-393 | a kept access specification leads to the image of where it leads in the input |
| `BtfGen.ValueKept` | lib/libbpf/src/relo_core.c:678-801 | what a relocation reads off the type reached is the same for its image |
| `BtfGen.FieldRelocationPreserved` | lib/libbpf/src/relo_core.c:678-801 | every satisfied field relocation, of each of the six kinds, has in the output the value it has in the input |
| `BtfField.FindCover` | lib/libbpf/src/relo_core.c:736-749 | the doubling loop finds the specified load or reports that none covers the bit field |
| `BtfField.CoverCovers` | lib/libbpf/src/relo_core.c:736-749 | the load is aligned to its size and covers every bit of the field |
| `BtfField.ReadsField` | lib/libbpf/src/bpf_core_read.h:88-112 | loading and shifting with the four relocated values yields exactly the bits of the field, sign-extended if it is signed, if and only if its type has 1, 2, 4 or 8 bytes; otherwise it yields nothing |
| `BtfField.CoverIsLoad` | lib/libbpf/src/relo_core.c:736-749 | the covering load has one of these sizes if and only if the type has |
| `BtfField.CoverIsSmallest` | lib/libbpf/src/relo_core.c:736-749 | it is the smallest aligned load that covers the field among those no smaller than the type, and none is found only if there is none |
| `BtfField.PlainBytesIff` | lib/libbpf/src/relo_core.c:750-757 | a field that is no bit field has the size of its type, and its bytes are its bits if and only if it starts at a byte or has no bytes |
| `BtfField.ReadsPlainMember` | lib/libbpf/src/bpf_core_read.h:88-112 | reading such a member with the shifts yields its bytes, sign-extended if it is signed |
| `BtfMatch.ImageIsAlike` | lib/bpftool/src/gen.c:1861-1948 | the image of a type that was marked for matching shows a match the same kind, name and parts: all members by value, none needed behind a pointer |
| `BtfMatch.DecidedAlike` | lib/libbpf/src/relo_core.c:1544-1687 | what names and kinds decide is the same for the image |
| `BtfMatch.MatchPreserved` | lib/libbpf/src/relo_core.c:1422-1687 | any local type matches the image of such a type exactly as it matches the type, errors included, by value or behind a pointer, for any bound of the recursion |
| `BtfMatch.RecordedMatchPreserved` | lib/libbpf/src/relo_core.c:1544-1687 | every satisfied type-match relocation has in the output the result it has in the input |
| `BtfMatch.CompatPreserved` | lib/libbpf/src/relo_core.c:146-224 | any local type is compatible with the image of a type marked for its existence exactly as with the type, errors included |
| `BtfMatch.RecordedTypePreserved` | lib/libbpf/src/relo_core.c:146-224 | every satisfied type-exists relocation has in the output the result it has in the input |
| `BtfMatch.TypeRelocationPreserved` | lib/libbpf/src/relo_core.c:803-871 | every satisfied size or enumeration relocation has in the output the value it has in the input |
| `BtfMatchLaws.EssentialIs` | lib/libbpf/src/libbpf.c:5416-5439 | the essential part of a name ends before its last three underscores between other characters |
| `BtfMatchLaws.MatchRequires` | lib/libbpf/src/relo_core.c:1517-1687 | types that match agree in name, kind, size, sign, counts and parts, except for the width of enumerations and for composites only declared behind a pointer |
| `BtfMatchLaws.OtherKindsMatch` | lib/libbpf/src/relo_core.c:1579-1625 | in these exceptions they do match |
| `BtfMatchLaws.MatchesItself` | lib/libbpf/src/relo_core.c:1544-1687 | every type of a table without floating point and declarations matches itself unless the recursion is too deep |
| `BtfMatchLaws.FirstEnumerator` | lib/libbpf/src/relo_core.c:587-618 | an enumeration relocation takes the value of the first enumerator with the same name |
| `BtfMatchLaws.NoEnumerator` | lib/libbpf/src/relo_core.c:587-618 | and has none if there is no such enumerator |
| `BtfMatchLaws.CompatRequires` | lib/libbpf/src/relo_core.c:146-224 | compatible types have the same kind, up to the width of enumerations, and integers that start at bit 0 |
| `BtfMatchLaws.CompatItself` | lib/libbpf/src/relo_core.c:146-224 | types are compatible with themselves in the same sense |
| `BtfGen.SelfParameterLoops` | lib/bpftool/src/gen.c:1861-1948 | matching a structure that a function pointer in it takes by value does not return, however deep the recursion may go |
| `BtfGen.SelfMarks` | lib/bpftool/src/gen.c:1724-1797 | on the same table every visit made for field, type and enumeration relocations returns |
| `Skeleton.CodegenDatasec` | lib/bpftool/src/gen.c:124-210 | the loop emits the specified members and paddings, or reports overlap or a missing alignment |
| `Skeleton.GeneratesIff` | lib/bpftool/src/gen.c:151-169 | generation succeeds if and only if the exposed variables are in order, do not overlap and have an alignment |
| `Skeleton.VariableLands` | lib/bpftool/src/gen.c:182-190 | a variable, padded or not, lands at its offset if and only if that is aligned on the host |
| `Skeleton.FaithfulIffAligned` | lib/bpftool/src/gen.c:124-210 | for every host alignment of at least the capped one, all variables land at their offsets if and only if these are aligned |
| `Skeleton.FieldsAreExposed` | lib/bpftool/src/gen.c:136-204 | every variable that is not static is emitted, once and in order, and no other |
| `Skeleton.PadsWhereNeeded` | lib/bpftool/src/gen.c:183-189 | padding precedes a variable if and only if an alignment of at most 4 does not put it at its offset, and reaches from the end of the last variable to it |
| `Skeleton.ErrorNamesFirst` | lib/bpftool/src/gen.c:158-170 | an error names what is wrong with the first variable that overlaps or has no alignment |
| `Skeleton.PadsArePositive` | lib/bpftool/src/gen.c:185-190 | no emitted padding is empty when offsets are multiples of the capped alignment |
| `Leb128.ReadU128` | lib/blazesym/src/util.rs:301-316 | the loop reads the base-128 number, reports a missing end, and overflows beyond 128 bits of shift |
| `Leb128.SignExtends` | lib/blazesym/src/util.rs:323-328 | the two shifts read a number of k bits as two's complement |
| `Leb128.ReadEncodedU` | lib/blazesym/src/util.rs:301-316 | decoding inverts encoding up to 128 bits, for every width up to 19 bytes, and overflows on wider ones |
| `Leb128.ReadEncodedS` | lib/blazesym/src/util.rs:323-328 | the same for signed numbers, up to 18 bytes |
| `Leb128.DigitsEncode` | lib/blazesym/src/util.rs:301-316 | encoding inverts decoding: every terminated byte string encodes, in its length, the number it denotes |
| `LineMachine.DebugLineStates.constructor` | lib/blazesym/src/dwarf.rs:331-344 | the initial registers |
| `LineMachine.DebugLineStates.Reset` | lib/blazesym/src/dwarf.rs:346-358 | a reset restores the initial registers |
| `LineMachine.DebugLineStates.RunExtended` | lib/blazesym/src/dwarf.rs:395-464 | extended opcodes change the registers as specified |
| `LineMachine.DebugLineStates.RunStmt` | lib/blazesym/src/dwarf.rs:366-551 | one instruction changes the registers, returns its size and whether it emits, or fails or panics, as specified |
| `LineMachine.ExecProgress` | lib/blazesym/src/dwarf.rs:366-551 | the instruction pointer strictly increases |
| `LineMachine.PushWanted` | lib/blazesym/src/dwarf.rs:579-598 | the inner loop pushes the row, and the one before it when needed, exactly when a queried address wants them |
| `LineMachine.RunStmts` | lib/blazesym/src/dwarf.rs:553-623 | executing, suppressing and selecting in one pass is executing the whole program and selecting afterwards |
| `LineReference.SpecialIsExactIff` | lib/blazesym/src/dwarf.rs:539-549 | a special opcode does what DWARF says if and only if it is above 10 and its line increment survives the scaling, or it is 1 and adds nothing |
| `LineReference.FixedAdvanceIsMisread` | lib/blazesym/src/dwarf.rs:523-534 | fixed_advance_pc never does what DWARF says: it has the size of one byte, so its operand is executed next, and at the end of the program it fails |
| `LineReference.ExecutesIff` | lib/blazesym/src/dwarf.rs:366-551 | every instruction of DWARF 4, wherever its encoding stands, is executed as DWARF says, up to clearing registers after a row, if and only if it is supported |
| `LineReference.RefusedOutcome` | lib/blazesym/src/dwarf.rs:366-551 | unknown opcodes and operands that are too long end in a panic, file definitions and addresses of another size in an error |
| `LineReference.OutOfRange` | lib/blazesym/src/dwarf.rs:462-522 | an address beyond 64 bits is a panic, and a line below 0 wraps |
| `LineProgram.MachineStep` | lib/blazesym/src/dwarf.rs:553-623 | one instruction of an encoded program takes the machine from its place in the program to the next, with the registers, flags and suppression of the reference there |
| `LineProgram.TraceFrom` | lib/blazesym/src/dwarf.rs:553-623 | from any place in a program, the rows of the rest are the shown reference rows, with the flags set since the start of their sequence |
| `LineProgram.MachineKeepsFlags` | lib/blazesym/src/dwarf.rs:366-623 | running the encoding of any program yields the rows of a reference run that keeps the basic-block, prologue-end and discriminator registers until the end of the sequence |
| `LineProgram.MachineMeetsReference` | lib/blazesym/src/dwarf.rs:366-623 | up to these flags they are the reference rows of DWARF, minus those from a row at address 0 to the end of its sequence |
| `LineProgram.FlagsAgreeIff` | lib/blazesym/src/dwarf.rs:366-551 | the kept flags of a row are those of DWARF if and only if no flag raised for an earlier row of the sequence is left unset since that row |
| `LineProgram.MachineIsExactIff` | lib/blazesym/src/dwarf.rs:366-623 | the machine's rows are those of DWARF, flags included, if and only if this holds at every shown row |
| `LineProgram.FlagStays` | lib/blazesym/src/dwarf.rs:514-517 | for set_address, set_basic_block, copy, copy the second row still begins a basic block |
| `LineFilter.SelectIsNeeded` | lib/blazesym/src/dwarf.rs:578-605 | for ascending queries exactly the needed rows are kept, each once and in order |
| `LineFilter.FindLine` | lib/blazesym/src/dwarf.rs:77-89 | on rows in order finds a row at the address, or the last row below it if there is none there, unless a sequence ends at the row found |
| `LineFilter.SelectedAnswer` | lib/blazesym/src/dwarf.rs:553-623 | the kept rows answer with the last needed row at or below the address |
| `LineFilter.AnswersAgreeIff` | lib/blazesym/src/dwarf.rs:553-623 | exactly when the last row at or below an address gives the same answer among the kept rows, for any address |
| `LineFilter.QueriesAnsweredAlike` | lib/blazesym/src/dwarf.rs:553-623 | every queried address inside a sequence has exactly the right answers of the full matrix, with any number of rows at the same address |
| `LineFilter.OneAnswer` | lib/blazesym/src/dwarf.rs:77-89 | when no two rows are at the same address, the last row at or below the address is the only right answer |
| `LineFilter.TraceNonZero` | lib/blazesym/src/dwarf.rs:570-606 | no row at address 0 is ever emitted |
| `LineFilter.FilteredRunAnswersAlike` | lib/blazesym/src/dwarf.rs:553-623 | the filtered run of any program whose rows are in order has exactly the right answers of the full run for each such query |
| `LineFilter.GapQueryDiffers` | lib/blazesym/src/dwarf.rs:579-598 | beyond the end of a sequence the two can differ |
| `Search.SearchAddressKey` | lib/blazesym/src/util.rs:9-39 | total on every input; on sorted data the result is at or below the address with nothing in between |
| `Search.SearchAddressOptKey` | lib/blazesym/src/util.rs:42-98 | ends on every input; on sorted keys it finds nothing exactly when no key is at or below the address, else a keyed entry with no key in between |
| `JsonWriter.Writer.constructor` | lib/bpftool/src/json_writer.c:90-118 | a fresh writer has written nothing |
| `JsonWriter.Writer.EndOfLine` | lib/bpftool/src/json_writer.c:29-44 | a line break with the indentation of the depth, when pretty |
| `JsonWriter.Writer.EndOfRecord` | lib/bpftool/src/json_writer.c:47-52 | the pending separator is written and a comma becomes pending |
| `JsonWriter.Writer.PutString` | lib/bpftool/src/json_writer.c:57-87 | the character loop appends the quoted and escaped string |
| `JsonWriter.Writer.BeginBlock` | lib/bpftool/src/json_writer.c:126-132 | opens a block one level deeper with no separator pending |
| `JsonWriter.Writer.EndBlock` | lib/bpftool/src/json_writer.c:134-143 | closes a block and leaves a comma pending |
| `JsonWriter.Writer.WriteName` | lib/bpftool/src/json_writer.c:147-156 | a name on its own line, with nothing pending before its value |
| `JsonWriter.Writer.WriteString` | lib/bpftool/src/json_writer.c:198-202 | a separated string |
| `JsonWriter.Writer.WriteScalar` | lib/bpftool/src/json_writer.c:166-174 | a separated number, boolean or null |
| `JsonWriter.SepIsStack` | lib/bpftool/src/json_writer.c:37-174 | over every balanced sequence of calls the separator byte agrees with a stack of per-level flags, and the texts are equal |
| `JsonWriter.NameOnItsLine` | lib/bpftool/src/json_writer.c:28-44 | after any calls, a name is on a line of its own, four spaces in for every open block; without pretty printing nothing is inserted |
| `JsonWriter.CloseOnItsLine` | lib/bpftool/src/json_writer.c:134-143 | so is the bracket that closes a block with elements, one level less |
| `JsonWriter.EscapedCharacters` | lib/bpftool/src/json_writer.c:56-88 | exactly seven characters are escaped |
| `JsonRoundTrip.EscapeParses` | lib/bpftool/src/json_writer.c:57-87 | an escaped string is read back if and only if it holds no other control character |
| `JsonRoundTrip.ValueReads` | lib/bpftool/src/json_writer.c:126-244 | the text of a value, pretty or not and at any depth, is read back as the value if and only if it is clean |
| `JsonRoundTrip.Write` | lib/bpftool/src/json_writer.c:126-244 | the natural calls for a value append its text at the writer's depth |
| `JsonRoundTrip.WriteDocument` | lib/bpftool/src/json_writer.c:90-244 | what a fresh writer writes for a value parses to that value if it is clean and does not parse otherwise |
| `LineInfo.ProgLinfo.Dissect` | lib/libbpf/src/bpf_prog_linfo.c:22-86 | succeeds with the split that the search finds, and the counts reach from each function to the next |
| `LineInfo.DissectionIsSplit` | lib/libbpf/src/bpf_prog_linfo.c:22-86 | dissection yields a split if and only if it is one: symbols matched, records increasing and inside in every function but the last |
| `LineInfo.CountsAddUp` | lib/libbpf/src/bpf_prog_linfo.c:22-86 | the counts sum to the start of the next function, and to all records in the end |
| `LineInfo.PartsCover` | lib/libbpf/src/bpf_prog_linfo.c:22-86 | every record belongs to a function |
| `LineInfo.PartIncreases` | lib/libbpf/src/bpf_prog_linfo.c:22-86 | records strictly increase inside every function but the last |
| `LineInfo.RecordsInside` | lib/libbpf/src/bpf_prog_linfo.c:53-59 | all records of a function that is not the last lie inside it if and only if it is not at address 0 with its last record at the last address, where the 64-bit difference wraps |
| `LineInfo.FitsIff` | lib/libbpf/src/bpf_prog_linfo.c:53-59 | the check on the last record accepts exactly what lies inside the function, or wraps |
| `LineInfo.LastAddressPasses` | lib/libbpf/src/bpf_prog_linfo.c:53-59 | such a split is accepted, whatever the lengths are |
| `LineInfo.LastFunctionUnchecked` | lib/libbpf/src/bpf_prog_linfo.c:46-80 | in any split, whatever records follow the start of the last function are accepted |
| `LineInfo.ProgLinfo.FindAddrFunc` | lib/libbpf/src/bpf_prog_linfo.c:180-216 | fails exactly in the three stated cases, else stops before the first record beyond the address |
| `LineInfo.ScanIsGreatest` | lib/libbpf/src/bpf_prog_linfo.c:180-216 | in every function but the last, and in the last if its records are in order, that is the greatest record at or below the address |
| `LineInfo.ScanStopsRightIff` | lib/libbpf/src/bpf_prog_linfo.c:180-216 | the records up to the result are those at or below the address if and only if none of these lies behind one beyond it |
| `LineInfo.UnorderedScanMisses` | lib/libbpf/src/bpf_prog_linfo.c:180-216 | on records out of order the scan misses a record at the address |
| `LineInfo.FindInsn` | lib/libbpf/src/bpf_prog_linfo.c:218-246 | the same for instruction offsets; on ordered offsets the greatest record at or below |
| `FlatBuffer.Convert` | lib/blazesym/src/c_api.rs:349-422 | the three cursors end at the ends of their regions, and reading through sizes and pointers returns the results with strings cut at NUL |
| `FlatBuffer.PutEntries` | lib/blazesym/src/c_api.rs:399-419 | the outer loop stores every entry, record and string in its own place |
| `FlatBuffer.PutSyms` | lib/blazesym/src/c_api.rs:405-418 | the inner loop stores the records and strings of one entry and advances both cursors |
| `FlatBuffer.StoreSym` | lib/blazesym/src/c_api.rs:405-418 | the next strings and record fit the buffer and overlap nothing stored so far |
| `FlatBuffer.StoreEntry` | lib/blazesym/src/c_api.rs:401-403 | the same for the next entry |
| `FlatBuffer.ReadBack` | lib/blazesym/src/c_api.rs:349-422 | a buffer that holds all segments reads back as the results |
| `FlatBuffer.RoundTripIff` | lib/blazesym/src/c_api.rs:349-422 | the original lists are read back if and only if no string holds a NUL |
| `Bitfield.Int128Shift` | lib/bpftool/src/btf_dumper.c:310-349 | two words shifted in place are a 128-bit left shift followed by a right shift |
| `Bitfield.HighBytesIgnored` | lib/bpftool/src/btf_dumper.c:351-375 | bytes that are not copied do not reach the field |
| `Bitfield.DumperBitfield` | lib/bpftool/src/btf_dumper.c:351-375 | the printed words hold floor(V / 2^offset) mod 2^bits |
| `Bitfield.DumperIntBits` | lib/bpftool/src/btf_dumper.c:378-393 | splitting the offset into bytes and bits does not change the field |
| `Vlan.Packet.TagPush` | common/rewrite_helpers.h:69-108 | a tag is inserted behind the addresses, and nothing changes on failure |
| `Vlan.Packet.TagPop` | common/rewrite_helpers.h:22-64 | the outermost tag is removed and returned, or nothing changes |
| `Vlan.PopUndoesPush` | common/rewrite_helpers.h:22-108 | pop after push restores every byte, and returns the argument if and only if it has 16 bits |
| `Vlan.PopIsIdentifierIff` | common/rewrite_helpers.h:22-64 | what a pop returns is the 12-bit identifier if and only if the tag is below 0x1000 |
| `Vlan.PriorityIsReturned` | common/rewrite_helpers.h:22-64 | for a tag with priority 1 and identifier 1 it returns 0x2001 |
| `Vlan.TagBytes` | common/parsing_helpers.h:68-72 | tags are announced by the bytes 81 00 and 88 A8; a pushed tag is 81 00 and its 16 bits |
| `Vlan.ServiceTag` | common/parsing_helpers.h:79-125 | a frame with one tag of type 88 A8 is popped like any other and parsed one level deep |
| `Vlan.ParseEthhdrVlan` | common/parsing_helpers.h:79-122 | parses the announced and complete tags, at most two, reports their masked identifiers and stops behind them |
| `Vlan.PushedLayout` | common/rewrite_helpers.h:69-108 | after any number of pushes the tags lie from the outermost to the innermost, then the frame's own type |
| `Vlan.ParseAfterPushes` | common/parsing_helpers.h:79-122 | after n pushes on an untagged frame the outermost min(n, 2) tags are reported, with the type found behind them |
| `ConnectTracker.Tracker.RcvStateProcess` | ebpf_for_client/tcp_analyse.bpf.c:100-150 | consumes the socket's entry in state SYN_SENT and reports the difference, else reports zero |
| `ConnectTracker.Tracker.V4Connect` | ebpf_for_client/tcp_analyse.bpf.c:152-195 | records the time of the connect unless the map is full |
| `ConnectTracker.MapHoldsOpen` | ebpf_for_client/tcp_analyse.bpf.c:47-52 | over every run the map holds exactly the recorded connects not yet replaced or consumed, each with its own time |
| `ConnectTracker.AnswersOneToOne` | ebpf_for_client/tcp_analyse.bpf.c:136-145 | a receive answers at most one connect and a connect is answered at most once |
| `ConnectTracker.ReportIsDifference` | ebpf_for_client/tcp_analyse.bpf.c:100-150 | zero without an open connect, else the 64-bit difference to it, which is exact if and only if the receive is not earlier |
| `ConnectTracker.ReportIsLatency` | ebpf_for_client/tcp_analyse.bpf.c:100-195 | on a non-decreasing clock the report is the difference in microseconds, within one microsecond of the truth |
| `ConnectTracker.MapHoldsLast` | ebpf_for_client/tcp_analyse.bpf.c:100-195 | with at most 4096 sockets the map holds the time of the last connect of each socket without a receive in state 2 since |
| `ConnectTracker.ReportsSinceLastConnect` | ebpf_for_client/tcp_analyse.bpf.c:100-195 | over any such run: a hook is reported unless the clock is below the minimum, with the time since the last connect on its socket if it is the first receive in state 2 after it, and with zero otherwise |
| `ConnectTracker.FilterDropsPrefix` | ebpf_for_client/tcp_analyse.bpf.c:110-112 | the filter drops a prefix of the run, never a later hook |
| `ConnectTracker.Conservation` | ebpf_for_client/tcp_analyse.bpf.c:47-195 | every recorded connect is replaced, consumed or still in the map, which never outgrows its limit |

## Left out

- Running out of memory, in all components, and the id-range and string-table errors of the BTF adders.
- Drawing the graph in DOT; JMP32 unconditional jumps, which the builder resolves through the wrong field.
- Cfg.Cfg.Build: list nodes are elements of a sequence and an edge names its ends by position, so pointer aliasing is not modelled.
- CfgTheorems.RunsArePaths: executions of one function; a call is a step to the next slot.
- Finding relocation targets and parsing ELF and BTF files; target specifications are given, with member indices inside their composite and element indices inside their array.
- BTF names are strings; FUNC, VAR, DATASEC and DECL_TAG are one kind; the pointer size is a parameter.
- BtfRecord.Recorder.MarkTypeMatch: says nothing about a visit that does not return; `BtfEnds.ReturnsIff` says when that is.
- BtfGen.FieldRelocationPreserved: the last accessor is taken to name a member, offsets are unbounded integers, and the host is little-endian.
- BtfMatch.MatchPreserved: the loops over members, parameters and enumerators are functions.
- Sanitising identifiers and printing types in the generated skeleton.
- Parsing the line-number prologue, turning a row into strings, and the list of addresses not found (lib/blazesym/src/dwarf.rs:650-665).
- LineProgram.MachineMeetsReference: operands have 64 bits.
- LineFilter.FilteredRunAnswersAlike: needs rows in order of address, which the machine does not enforce, since its sort is unreachable.
- JSON floats and the writers that take a format string; the parser knows integers and the short escapes only.
- FlatBuffer.Convert: memory layout of a 64-bit little-endian host; the address of the buffer is a parameter.
- Bitfield.DumperBitfield: offset plus size is at most 127; at 128 the code shifts a word by 64, which C leaves undefined. Little-endian hosts only.
- Vlan.Packet.TagPush: the Ethernet header pointer is the start of the packet, as every caller passes it; the kernel's own reasons to refuse moving the head are a parameter.
- Vlan.ParseEthhdrVlan: returns the type in host byte order.
- ConnectTracker.Tracker.V4Connect: hooks are atomic, map updates fail only when the map is full, and the fields copied from the socket and the calling process are left out.
- The other readers and converters of blazesym, the command files of bpftool, the rest of libbpf, and the services, the proxy and the loaders: system calls, sockets and printing.
