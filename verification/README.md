# bpf_dns: a verified model of the DNS-name filter compiler

`bpf_dns.py` turns domain patterns such as `example.com` or `*.www.fint.me` into a
classic BPF (Berkeley Packet Filter) listing. The listing accepts a UDP/DNS packet when
the name of its first question matches one of the patterns. The model covers the
compiler's core:

- normalising each pattern, splitting it into labels and encoding every literal label
  in DNS wire form (a length octet, then the characters; RFC 1035 section 3.1), with `*`
  as a wildcard label (`Labels`);
- merging the encoded labels into compare runs and label skips (`Merge`);
- `match_exact`, which compares a run four, two or one octets at a time, ORing in a
  mask for `?` and for `-i`, then moves X past the run (`Emit`);
- `match_star`, which skips one label of any length (`Emit.StarCode`);
- the preamble, which computes the offset of the question name for IPv4 or IPv6 (`-6`),
  behind the layer-3 offset `-o` (`Compiler.Preamble`);
- the sequence of blocks `lb_0`, `lb_1`, ..., each of which tries one pattern and falls
  through to the next on a mismatch, then the final reject block (`Compiler`).

A small interpreter for the BPF instructions the compiler emits (`Bpf`) gives the
listing a meaning. Its registers are 32-bit, additions wrap at 2^32, and a load past
the end of the packet aborts the filter. `Semantics.Filter` states directly on the
packet octets what the filter should decide:

- the first pattern whose steps all agree with the name accepts the packet (`ret #1`,
  or `ret #0` with `-n`);
- a packet matched by no pattern is rejected;
- a comparison past the end of the packet aborts the run.

The main theorem, `Theorem.FilterCorrect`, proves that running the generated listing
from its first instruction, whatever the registers hold, gives exactly `Filter`'s
decision. It holds for every packet shorter than 2^32 - 256 octets.

What an octet of a pattern accepts (`Semantics.Agrees`):

- a length octet accepts only itself;
- `?` accepts any octet;
- any other character accepts only itself, or, with `-i`, also the octet that differs
  from it in bit 0x20. With `-i` the mask 0x20 is applied to every character, not only
  letters, so `-i` also pairs some non-letters, for example `@` with `` ` ``. The model
  states this as the code does it.

The code and its prose description disagree on one point: the order of
normalisation. The code strips dots first and whitespace second
(`domain.strip(".").strip()`), so in `" .example"` the dot after the space is kept.
The model follows the code: see `Labels.Normalize` and `Labels.DotsBeforeSpaces`.

`utils.merge` is not part of this model. `Merge.Merge` is a definition of its effect as
the compiler uses it:

- consecutive literal labels are concatenated into one run;
- each wildcard stays a step of its own.

`Merge.MergeKeepsItems`, `Merge.MergeCanonical` and `Merge.CanonicalUnique` prove that
this definition is the only one that keeps every octet and wildcard in order and yields
runs that never follow one another.

`Usage` states the examples of the tool's usage text on the model. `*.www.fint.me`
matches one label followed by www.fint.me, but neither www.fint.me nor two labels
before it. `fin?.me` matches fin followed by any one octet, then me, and no name whose
first label has another length. With `-6`, the listing itself accepts and rejects such
packets. The usage text lists `finZ,me` among the matches. As written, with a comma,
that is one seven-character label, which does not match (`Usage.FinRejectsLength`);
`finZ.me` does (`Usage.FinMatches`).

## Model

| member | source | states |
|---|---|---|
| Labels.StripStart | bpf_dns.py:116 | The result is a suffix of the input, everything removed is a character of the strip set, and the result does not start with one. |
| Labels.StripEnd | bpf_dns.py:116 | The result is a prefix of the input, everything removed is a character of the strip set, and the result does not end with one. |
| Labels.Normalize | bpf_dns.py:116-119 | The normalised pattern always ends with exactly the dot that is appended after stripping. |
| Labels.LeadingDotIgnored | bpf_dns.py:115-116 | A pattern with one more leading dot normalises to the same string. |
| Labels.TrailingDotIgnored | bpf_dns.py:115-116 | A pattern with one more trailing dot normalises to the same string. |
| Labels.DotsBeforeSpaces | bpf_dns.py:116 | Dots are stripped before whitespace: a dot behind a leading space survives normalisation. |
| Labels.Split | bpf_dns.py:122 | `split(".")` always yields at least one part. |
| Labels.JoinSplit | bpf_dns.py:122 | Splitting at dots then joining with dots gives the string back, and no part contains a dot. |
| Labels.SplitJoin | bpf_dns.py:122 | Joining dot-free parts with dots then splitting gives the parts back. |
| Labels.PartsEndWithRoot | bpf_dns.py:118-122 | Every pattern has at least two parts, and the last is the empty root label. |
| Labels.EncodeDecode | bpf_dns.py:126-127 | A label's encoding is its length octet then its characters, and a DNS reader decodes it back to that label, leaving what follows untouched. |
| Labels.TokenizeDomain | bpf_dns.py:121-127 | The loop over the parts computes Tokenize: one token per part, in order, or the chr() error. |
| Labels.TokenizeFails | bpf_dns.py:126 | Tokenizing fails exactly when some label of the normalised pattern has 256 or more characters. |
| Labels.TokenizeShape | bpf_dns.py:119-127 | A part becomes a wildcard exactly when it is `*`, every other part becomes its wire encoding, and the last token is the root label's single zero octet. |
| Labels.TokenizeLossless | bpf_dns.py:116-127 | The texts of the tokens, joined by dots, are the normalised pattern: tokenizing loses nothing. |
| Labels.PartsOfPlain | bpf_dns.py:116-122 | A pattern written as dot-free labels joined by dots, with neither a dot nor whitespace at either end, splits into exactly those labels, then the empty root label. |
| Merge.MergeKeepsItems | bpf_dns.py:129 | Merging keeps every encoded octet and every wildcard, in order, and adds nothing. |
| Merge.MergeCanonical | bpf_dns.py:129 | The merge has no empty run and never two runs in a row, and it starts with a skip exactly when the pattern starts with a wildcard. |
| Merge.CanonicalUnique | bpf_dns.py:129 | Two canonical step lists with the same octets and wildcards are equal, so the merge is determined by these two properties. |
| Merge.MergeLiterals | bpf_dns.py:129 | A pattern with no wildcard becomes a single run: the concatenated encodings of its labels. |
| Merge.MergeEndsWithRun | bpf_dns.py:129 | A pattern that ends with a literal label ends with a compare run, the step that gets `last` set. |
| Merge.Merge | bpf_dns.py:129 | The definition of the merge: runs of consecutive literal labels are concatenated, and each wildcard stays a skip. Its meaning is stated by MergeKeepsItems, MergeCanonical and CanonicalUnique. |
| Merge.TokenizeNoEmpty | bpf_dns.py:121-127 | No token of a pattern is an empty literal: every literal label has at least its length octet. |
| Bits.OrPack | bpf_dns.py:148-153 | The OR of two big-endian values is the big-endian value of their octet-wise OR. |
| Bits.WordOrPack | bpf_dns.py:148-153 | The same for the 32-bit OR of a chunk value and a chunk mask of at most four octets. |
| Bits.PackInjective | bpf_dns.py:148-149 | Equal-length octet strings with the same `struct.unpack` value are equal. |
| Bits.PackZero | bpf_dns.py:149-151 | An unpacked mask is zero exactly when all its octets are, which is when no `or` is emitted. |
| Bits.ByteOrCaseBit | bpf_dns.py:136-137 | ORing with 0x20 sets the case bit. |
| Bits.SetCaseBitEq | bpf_dns.py:136-137 | Two octets agree once bit 0x20 is set exactly when they are equal or differ in that bit only. |
| Emit.Width | bpf_dns.py:145-168 | The next load takes 4, 2 or 1 octets, and never more than remain. |
| Emit.MaskBytes | bpf_dns.py:132-140 | The mask loop gives 0xff for `?`, 0x20 for other characters under `-i`, and 0 otherwise, one mask octet per octet of the run. |
| Emit.NextChunk | bpf_dns.py:144-171 | Each turn cuts the first 4, 2 or 1 octets off both the values and the masks, and keeps the rest. |
| Emit.TestChunk | bpf_dns.py:145-177 | The listing of one chunk: the load, the `or` when the mask is not zero, and the `jneq` against the masked packed value. |
| Emit.EmitChunk | bpf_dns.py:144-177 | One loop turn keeps the code emitted so far a prefix of the run's chunk tests and moves the offset past the chunk. |
| Emit.MatchExact | bpf_dns.py:131-181 | The listing `match_exact` prints is the chunk tests of the run, then, unless the run ends the pattern, the advance of X by the run's length. |
| Emit.ChunkAtMeaning | bpf_dns.py:145-176 | A chunk compares the packed masked octets, and ORs in a mask exactly when one of its mask octets is not zero. |
| Emit.LayoutShape | bpf_dns.py:143-177 | The chunks of a run of 4q + r octets are q words, then a halfword when r >= 2, then an octet when r is odd, each starting where the previous one ends. |
| Emit.ExactLoads | bpf_dns.py:143-177 | The loads of `match_exact` have those widths and offsets and cover the run from offset 0 to its end. |
| Emit.ExactOr | bpf_dns.py:151-175 | `match_exact` emits no `or` exactly when every character octet of the run is a character other than `?` and case is not ignored. |
| Emit.ExactConstants | bpf_dns.py:143-177 | For a run with no `?`, compared case-sensitively, every chunk lies inside the run, has mask 0 (no `or`), and compares the packed wire octets of the run themselves. |
| Emit.MaskOf | bpf_dns.py:133-139 | The definition of one mask octet: 0xff for `?`, 0x20 for another character under `-i`, 0 otherwise. MaskBytes and Semantics.MaskMeaning state what it means. |
| Emit.ExactCode | bpf_dns.py:131-181 | The definition of the `match_exact` listing: the chunk tests of the run, then the advance of X unless the run is last. MatchExact, ExactLoads, ExactOr, ExactConstants and Correctness.ExecExact state what it means. |
| Emit.StarCode | bpf_dns.py:183-188 | The definition of the `match_star` listing: load the length octet under X, add one, add X, move A into X. Correctness.ExecStar states what it does when run. |
| Semantics.MaskMeaning | bpf_dns.py:132-153 | A packet octet ORed with its mask equals the pattern octet ORed with the same mask exactly when the packet octet agrees with the pattern octet. |
| Semantics.RunInside | bpf_dns.py:143-177 | A run that lies inside the packet matches exactly when each of its octets agrees with the packet. |
| Semantics.RunMatchInside | bpf_dns.py:143-177 | A matching run lies inside the packet. |
| Semantics.AttemptShift | bpf_dns.py:204-213 | Only the octets from the cursor on affect whether a pattern matches. |
| Semantics.Filter | bpf_dns.py:190-218 | The reference decision the listing is proved against: find the start of the name (None aborts), then the first pattern whose steps agree accepts, an out-of-bounds comparison aborts, and no match rejects. Theorem.FilterCorrect connects it to the listing. |
| Correctness.MaskedCompare | bpf_dns.py:148-154 | The masked packet word equals the compared constant exactly when the octet-wise ORs with the mask agree. |
| Correctness.ChunkVerdictMeaning | bpf_dns.py:144-177 | The machine's test of one chunk decides what comparing its masked octets decides. |
| Correctness.ChunksVerdictMeaning | bpf_dns.py:144-177 | The masked chunk comparisons decide what the octet-wise agreement of the run decides. |
| Correctness.CodeVerdictMeaning | bpf_dns.py:144-177 | The chunk tests of a run decide chunk by chunk what its masked octets decide. |
| Correctness.ExecChunks | bpf_dns.py:144-177 | Run on the machine, the chunk tests abort on a load past the packet, jump to the next block on a mismatch, and fall through when all chunks match. |
| Correctness.ExecExact | bpf_dns.py:131-181 | Run on the machine, `match_exact` decides what RunFrom decides, and after a match goes on with X past the run unless it ends the pattern. |
| Correctness.ExecStar | bpf_dns.py:183-188 | Run on the machine, `match_star` aborts when the length octet under X is past the packet, and otherwise moves X and A past that label. |
| Compiler.CollectMeaning | bpf_dns.py:114-129 | Collecting fails exactly when some element fails, and otherwise holds each element's result, in order. |
| Compiler.DomainPattern | bpf_dns.py:116-129 | One turn of the argument loop computes the merge of the pattern's tokens, or its chr() error. |
| Compiler.ParsePatterns | bpf_dns.py:112-129 | The argument loop fills `list_of_rules` with one pattern per argument, in order, and stops at the first error. |
| Compiler.ParseMeaning | bpf_dns.py:114-129 | Parsing fails exactly when some argument has a label too long to encode, and otherwise gives the merge of each argument's tokens, in order. |
| Compiler.PatternCanonical | bpf_dns.py:114-129 | The pattern of a domain keeps every octet and wildcard of its tokens in order, is canonical (no empty run, never two runs in a row), is not empty, and ends with a run. |
| Compiler.EmitStep | bpf_dns.py:208-213 | A run step is compiled by `match_exact`, with `last` set on the pattern's last step, and a wildcard by `match_star`. |
| Compiler.EmitBlock | bpf_dns.py:204-215 | The block of pattern i: its label `lb_i`, the restore of X from M[0] except in the first block, its steps' code jumping to `lb_(i+1)` on failure, then the accepting return. |
| Compiler.Compile | bpf_dns.py:190-218 | The listing is the preamble, the blocks in order, then the label after the last block and the rejecting return. |
| Compiler.BpfDns | bpf_dns.py:104-218 | No argument is an error, a label too long for chr() is an error, and otherwise the result is the listing of the parsed patterns. |
| Compiler.Preamble | bpf_dns.py:190-201 | The definition of the preamble listing: the offset computation for IPv4 or IPv6, and the store to M[0] when there are several patterns. Theorem.PreambleV4, PreambleV6 and ExecPreamble state what it computes. |
| Compiler.Block | bpf_dns.py:204-215 | The definition of block i: `lb_i`, the restore of X except in the first block, the steps failing to `lb_(i+1)`, then the accepting return. EmitBlock and Layout.BlockShape state its shape. |
| Compiler.Program | bpf_dns.py:190-218 | The definition of the whole listing: the preamble, the blocks in order, then the reject block. Compile, Layout.ProgramPlaced and Theorem.FilterCorrect state what it is and does. |
| Bpf.LabelIndexFirst | bpf_dns.py:205 | A jump target is the first declaration of its label, and a missing label has no declaration. |
| Layout.StepsLabelFree | bpf_dns.py:208-213 | The code of a pattern's steps declares no label. |
| Layout.LabelOfBlock | bpf_dns.py:204-218 | Label `lb_i` is first declared at the start of block i, or at the reject block for the last i. |
| Layout.StepsJumpTo | bpf_dns.py:208-213 | Every `jneq` in the code of a pattern's steps jumps to the failure label it is given. |
| Layout.BlockShape | bpf_dns.py:204-215 | Block i starts with `lb_i`, declares no other label, and every `jneq` in it jumps to `lb_(i+1)`. |
| Layout.ProgramPlaced | bpf_dns.py:204-218 | Each of `lb_0` to `lb_n` is declared exactly once, at the start of its block (the reject block for `lb_n`), and no other label is declared. Every `jneq` in block i jumps to `lb_(i+1)`, forward. |
| Theorem.PreambleV4 | bpf_dns.py:190-194 | Without `-6`: the run aborts when the IPv4 header's first octet is missing, and otherwise A and X hold the layer-3 offset plus 20 plus four times the header-length nibble, modulo 2^32. |
| Theorem.PreambleV6 | bpf_dns.py:195-197 | With `-6`: A and X hold the layer-3 offset plus 60, modulo 2^32. |
| Theorem.ExecPreamble | bpf_dns.py:190-201 | After the preamble, A, X and, when there are several patterns, M[0] hold the start of the question name. |
| Theorem.ExecBlocks | bpf_dns.py:204-218 | Run on the machine, the blocks from i on try the patterns from i on, in order, each at the start of the name. The first match accepts, a read past the packet aborts, and no match reaches the reject block. |
| Theorem.FilterCorrect | bpf_dns.py:190-218 | The whole listing, run from its first instruction with any registers, returns exactly what Filter decides for the packet. |
| Usage.StarPattern | bpf_dns.py:24-27 | The argument `*.www.fint.me` becomes a skip of one label, then a single run comparing www, fint, me and the root label. |
| Usage.StarParse | bpf_dns.py:24 | The argument list `*.www.fint.me` parses into that one pattern. |
| Usage.StarMatchesOneLabel | bpf_dns.py:26-30 | The pattern matches any one label followed by www.fint.me, such as blah.www.fint.me or anyanyany.www.fint.me, with or without `-i`. |
| Usage.StarRejectsBareName | bpf_dns.py:32-34 | The pattern does not match www.fint.me itself. |
| Usage.StarRejectsTwoLabels | bpf_dns.py:32-35 | The pattern does not match two labels followed by www.fint.me, such as blah.blah.www.fint.me. |
| Usage.FilterOne | bpf_dns.py:195-215 | With `-6`, the listing of one pattern returns accept, reject or abort exactly as the pattern matches, fails to match, or runs past the end of the name behind the headers. |
| Usage.StarFilterAccepts | bpf_dns.py:24-30 | With `-6`, the listing of `*.www.fint.me` accepts an IPv6 packet asking for one label followed by www.fint.me. |
| Usage.StarFilterRejects | bpf_dns.py:24-34 | With `-6`, the same listing rejects an IPv6 packet asking for www.fint.me. |
| Usage.FinPattern | bpf_dns.py:42-44 | The argument `fin?.me` becomes one run in which `?` is an ordinary character octet. |
| Usage.FinMatches | bpf_dns.py:42-48 | The pattern matches fin followed by any one octet, then me, such as fint.me, finT.me, finX.me or finZ.me, with or without `-i`. |
| Usage.FinRejectsLength | bpf_dns.py:50-52 | The pattern does not match a name whose first label is not four characters long, such as finXX.me, www.finX.me or fin.me. A name shorter than the first four-octet load aborts instead. |
| Usage.FinRejectsFiXX | bpf_dns.py:50-52 | The pattern does not match fiXX.me, with or without `-i`. |

## Left out

- Command-line parsing (`getopt`, `-h`, bpf_dns.py:75-106) is left out. The switches `-n`, `-i`, `-o` and `-6` are the fields of `Semantics.Options`.
- Printing is left out. The listing is a sequence of instructions, not text, so the model has no `; Match:` and other comment lines, no `%r`/hex formatting and no commented-out `st M[0]`/`ldx M[0]` lines. A commented-out line is simply absent.
- Redirecting stdout through StringIO and assembling with `bpf_compile` (bpf_dns.py:108-109, 221-232) are I/O and a call into code outside this model. The result is the assembly listing.
- `utils.merge` is not part of this model. It is modelled by its effect as the compiler relies on it, which `Merge.CanonicalUnique` shows is determined.
- Compiler.BpfDns: an empty argument list gives `Err(NoDomain)` where the source prints a message and exits with -1. A label of 256 or more characters gives `Err(ChrOutOfRange)` where chr() raises ValueError.
- Compiler.Compile: requires at least one pattern. The source reaches the code generation only with a non-empty argument list (bpf_dns.py:104-106).
- Theorem.FilterCorrect: requires the packet to be shorter than 2^32 - 256 octets, so that X plus a load offset or a label length never wraps around. The interpreter's `ld [x + k]` does not model wrap-around of the address.
- Label length limits are not modelled: the source does not reject labels of 64 to 255 characters or names longer than 255 octets, and neither does the model.
- The interpreter covers only the instructions the compiler emits. A negative `-o` offset is treated as a load outside the packet; it does not select the kernel's special negative-offset loads.
- The interpreter does not check the limits of the assembled form. A conditional jump can reach at most 255 instructions ahead, and a program can have at most 4096 instructions. A long pattern, or many patterns, can therefore yield a listing that `bpf_compile` would not accept, while the model still runs it.
- With `-6` the first next header is assumed to be UDP, as in the source; extension headers are not modelled.
