# Guild model registry, flag values and CLI helpers in Dafny

This project models three parts of Guild AI's Python sources and proves their
properties:

- **`guild/model.py`**: how models are named and found.
  - A modelfile directory is escaped into a `.modelfile.` project name: Base16 (section 8 of RFC 4648) of its UTF-8 bytes (RFC 3629).
  - `ModelfileNamespace` recognises such names and recovers the directory.
  - Package distributions are scanned through their RECORD manifest. A definition is looked up by first match.
  - A modelfile distribution has an entry map. `Model` names itself lazily.
  - Public models are filtered from private ones. A model path is moved to the front of the search path.
- **`guild/flag_util.py`**: how flag values are written and read back.
  - Values are encoded structurally: `yes`/`no`/`null`, lists, and dicts in key order.
  - The flag-function syntax `name[a:b:c]` is parsed.
  - Values are decoded, formatted as sorted `name=value` lines, quoted, and float text is truncated.
- **`guild/click_util.py`**: the text helpers of the command line.
  - Command paths are normalized and command aliases resolved.
  - Help text goes through ordered substitutions.
  - Click parameters are appended.
  - Error messages are rewritten.
  - `JSONHelpFormatter` builds its help object step by step.

Layout. The pure parts are datatypes, functions and lemmas. Parts of the source that change state are written as classes and methods:

- `GuildModel.PackageDist` (the `_modeldefs` attribute);
- `GuildModel.Model` (the memoized `_fullname`);
- `GuildModel.ModelRegistry` (the search path);
- `ClickUtil.JsonHelpFormatter`;
- `ClickUtil.Decorated` (`__click_params__`).

Loops in the source are methods with loop invariants: the RECORD scan, `add_model_path`'s `remove`, alias matching, the `_format_text` substitution loop and `append_params`.

Collaborators the modules call but do not define are parameters:

- `GuildModel.Env` holds the modelfile loader, `modelfile.NAMES`, `relpath(dirname(..))`, `abspath`, file reading and MD5.
- `FlagUtil.Codec` holds `yaml.safe_dump`, `yaml.safe_load`, `float()`, `int()` and `repr`.

Each is a plain function of its inputs, and `None` stands for the exception it raises.

Modules:

- `Wrappers`: Option and Result.
- `Strings`: Python string operations over `seq<char>`.
- `StringOrder`: Python's code-point string order and the stable sort by key.
- `Utf8` and `Base16`: the two codecs.
- `Paths`: POSIX `join` and `basename`.
- `ModelNames`, `GuildModel`, `FlagUtil` and `ClickUtil`: the three source files.

Four behaviours of the code are modelled as written:

- `_ensure_dist_modeldefs` tests for an attribute named `_modelefs` but stores `_modeldefs`, so the cache never hits. `GuildModel.EnsureDistModeldefs` reloads on every call, as the code does.
- `Model.reference` for a modelfile model ends with `" " + name` after the hash. It is recomputed on every access, not memoized.
- `JSONHelpFormatter.write_paragraph` after the buffer is finalized calls `append` on the marker object. The model reports this as an `AttributeError` outcome.
- `_truncate_formatted_float` also offers the text between the `.digits` runs for truncation, so `format_flag` shows an infinity as ".in" with length 2. `FlagUtil.FormatFlag` truncates as the code does; the corrected truncation sits beside it (see Findings).

## Model

| member | source | states |
|---|---|---|
| Base16.Digit | guild/model.py:156 | each value below 16 maps to one of the upper-case digits `0-9A-F` |
| Base16.DigitValue | guild/model.py:160 | the value of a digit is below 16 and maps back to that digit |
| Base16.Encode | guild/model.py:156 | the encoding has two characters per byte, all of them upper-case hex digits |
| Base16.DecodePairs | guild/model.py:160 | an even-length run of hex digits decodes to half as many bytes |
| Base16.Decode | guild/model.py:160 | decoding succeeds exactly when the length is even and every character is an upper-case hex digit (no case folding) |
| Base16.DecodeEncode | guild/model.py:154-160 | decoding an encoding gives the bytes back |
| Base16.EncodeDecode | guild/model.py:154-160 | every text that decodes is the encoding of its bytes, so Base16 is a bijection onto valid texts |
| Utf8.EncodeChar | guild/model.py:156 | a scalar value is written in one to four bytes |
| Utf8.DecodeFirst | guild/model.py:160 | a well-formed leading sequence is consumed, taking between one byte and all of them |
| Utf8.DecodeEncode | guild/model.py:154-160 | strict decoding of an encoding gives the string back |
| Utf8.EncodeDecode | guild/model.py:154-160 | whatever decodes strictly is the encoding of its string: there is one spelling per string |
| ModelNames.EscapeProjectName | guild/model.py:154-156 | the escape is twice the UTF-8 length, uses only `0-9A-F`, and never contains '/' |
| ModelNames.UnescapeProjectName | guild/model.py:158-160 | odd-length input, or input with any character outside `0-9A-F`, is a decode error |
| ModelNames.UnescapeEscape | guild/model.py:154-160 | unescaping an escaped name gives the name back exactly |
| ModelNames.UnescapeToken | guild/model.py:131-160 | the token after the `.modelfile.` prefix unescapes to the name it was escaped from |
| ModelNames.EscapeUnescape | guild/model.py:154-160 | every token that unescapes is the escape of its result |
| ModelNames.EscapeInjective | guild/model.py:154-156 | distinct names have distinct escapes |
| ModelNames.PackagePath | guild/model.py:148-150 | a relative directory starting with '.' is kept, any other relative directory gets "./" in front, and an absolute one is kept by `os.path.join`; so unless it is absolute the path starts with '.' |
| ModelNames.ModelfileProjectName | guild/model.py:131-152 | the project name is `.modelfile.` followed by Base16 digits only, and those digits unescape to the package path |
| ModelNames.IsProjectNameMember | guild/model.py:230-238 | a name without the `.modelfile.` prefix gives (no, None); a member always carries the prefix and a recovered name |
| ModelNames.MemberOfModelfileProjectName | guild/model.py:131-152 | the project name of a modelfile distribution is a member, and the membership test recovers its package path |
| ModelNames.MemberWithRest | guild/model.py:231-236 | `.modelfile.` + escape(p) + "/" + rest is a member whose recovered name is p + "/" + rest |
| ModelNames.MemberInverse | guild/model.py:231-236 | every member name is the prefix, an escaped path, and either nothing or "/" followed by the rest |
| Paths.Join | guild/model.py:82 | an absolute second part replaces the first; otherwise the result ends with the second part |
| Paths.Basename | guild/model.py:81 | the basename holds no '/' and is the tail of the path after its last '/' |
| GuildModel.FirstNamed | guild/model.py:126-128 | the index found is the first definition with that name, or the end when none has it |
| GuildModel.GetModel | guild/model.py:125-129 | the result is the first definition in the modelfile with the requested name; ValueError(name) exactly when no definition has that name |
| GuildModel.TryAccModeldefs | guild/model.py:86-93 | the accumulator is extended by the file's definitions, in order; a load failure adds nothing and logs one warning |
| GuildModel.LoadDistModeldefs | guild/model.py:70-84 | the loop's result is the record-order concatenation over modelfile lines; an unreadable RECORD gives [] and one warning |
| GuildModel.RecordModeldefsAppend | guild/model.py:79-83 | the scan distributes over concatenation of the manifest, so definitions come out in record order |
| GuildModel.RecordModeldefsAt | guild/model.py:79-83 | manifest line i contributes exactly its own loaded definitions at its own place, and nothing if its basename is not a modelfile name or loading fails |
| GuildModel.RecordModeldefsSkip | guild/model.py:79-93 | a non-modelfile line, or a modelfile that fails to load, can be dropped without changing the result, so failures do not stop the scan |
| GuildModel.RecordModeldefsOrigin | guild/model.py:79-83 | every definition found comes from a line whose basename is a modelfile name and whose file loaded |
| GuildModel.EnsureDistModeldefs | guild/model.py:65-68 | the definitions are reloaded and stored on every call, whatever was stored before |
| GuildModel.ModeldefForDist | guild/model.py:56-63 | a modelfile distribution answers with get_model; a package distribution answers with the first loaded definition of that name, or ValueError("undefined model ...") |
| GuildModel.ModelEntriesKeys | guild/model.py:162-167 | the "guild.models" keys are exactly the model names, each mapped to a model entry point of that name |
| GuildModel.ResourceEntriesKeys | guild/model.py:168-171 | the "guild.resources" keys are exactly the resource names, each mapped to a resource entry point of that name |
| GuildModel.IterResources | guild/model.py:181-184 | a resource is yielded exactly when some model declares it |
| GuildModel.ModelfileEntryMap | guild/model.py:162-172 | the map has exactly the groups "guild.models" and "guild.resources"; the first is keyed by the model names, the second by the names of all their resources, each entry an entry point of its own name |
| GuildModel.GetEntryMap | guild/model.py:119-123 | no group gives the whole map; a known group gives that group; an unknown group gives {} |
| GuildModel.EntryMapGroups | guild/model.py:119-123 | `get_entry_map(None)` is the whole map; the model group keys are the model names, the resource group keys are all resource names, and an unknown group is {} |
| GuildModel.NewModelfileDist | guild/model.py:110-114 | a modelfile distribution keeps its modelfile, is located at its source, and has a project name that is a modelfile namespace member |
| GuildModel.Model.constructor | guild/model.py:31-35 | a new model records its name, distribution and definition, with no full name computed yet |
| GuildModel.Model.Fullname | guild/model.py:40-45 | the first access computes the namespaced project name + "/" + name and caches it; later accesses return the cached value unchanged |
| GuildModel.Model.Reference | guild/model.py:47-54 | a package model gives "dist:<dist> <name>"; a modelfile model gives "file:" + its absolute path + " " + the modelfile's digest + " " + name |
| GuildModel.ModelfileHash | guild/model.py:99-106 | the digest is the MD5 hex digest of the file's bytes, or "-" when the file cannot be read |
| GuildModel.ModelfileDistRef | guild/model.py:95-97 | the reference is the absolute path of the modelfile, a space, and the file's digest |
| GuildModel.NewModel | guild/model.py:31-35 | a modelfile model gets `get_model`'s definition and fails with its ValueError(name); a package model gets the first loaded definition with the name, fails with ValueError("undefined model ...") exactly when there is none, and leaves the loaded definitions stored on the distribution |
| GuildModel.IterModels | guild/model.py:255-258 | only non-private models are yielded, every non-private entry's model is, and they come in registry order |
| GuildModel.IterModelsAppend | guild/model.py:255-258 | the filter works entry by entry: filtering a split registry gives the two filtered halves in order |
| GuildModel.IterModelsSingle | guild/model.py:256-258 | one entry yields its model when the definition is public and nothing when it is private, so each entry is yielded as often as it is listed |
| GuildModel.ModelRegistry.SetPath | guild/model.py:243-244 | the path is replaced wholesale |
| GuildModel.ModelRegistry.AddModelPath | guild/model.py:246-253 | the new path is the added entry followed by the old path with its first occurrence removed |
| GuildModel.Find | guild/model.py:249 | the index is the first occurrence of the value, or the end when it is absent |
| GuildModel.IndexOf | guild/model.py:249 | the scan finds the first occurrence |
| GuildModel.RemoveFirstAbsent | guild/model.py:248-251 | removing an absent entry is ignored and leaves the path unchanged |
| GuildModel.RemoveFirstAt | guild/model.py:249 | only the first occurrence is removed; everything before and after it keeps its order |
| GuildModel.AddModelPathEffect | guild/model.py:246-253 | the added entry leads the path; the other entries keep their relative order; an absent entry gives [m] + old path |
| GuildModel.ImporterAccepts | guild/model.py:198-206 | a path is accepted exactly when it is a directory whose listing holds one of the modelfile names |
| GuildModel.HasListedName | guild/model.py:202-204 | the scan finds a name exactly when some modelfile name is in the listing |
| GuildModel.PipInstallInfo | guild/model.py:226-228 | installing a modelfile distribution with pip always fails with TypeError |
| Strings.LStrip | guild/flag_util.py:114 | leading whitespace is dropped and nothing else |
| Strings.RStrip | guild/flag_util.py:114 | trailing whitespace is dropped and nothing else |
| Strings.StripUnchanged | guild/flag_util.py:114 | text with non-space ends is its own strip |
| Strings.JoinAppend | guild/flag_util.py:47 | joining one more part appends the separator and that part |
| Strings.ConcatAppend | guild/click_util.py:102 | concatenating parts distributes over concatenating the part lists |
| Strings.IndexOfChar | guild/flag_util.py:116 | the first occurrence of a character, or the end when it is absent |
| Strings.SplitOn | guild/flag_util.py:116 | there is at least one piece, and no piece contains the separator |
| Strings.JoinSplitOn | guild/flag_util.py:116 | joining the pieces of a split with the separator gives the text back |
| Strings.SplitOnJoin | guild/flag_util.py:116 | splitting a join on a separator that no part contains gives the parts back |
| StringOrder.StrLeReflexive | guild/flag_util.py:64 | Python's string order is reflexive |
| StringOrder.StrLeTotal | guild/flag_util.py:64 | Python's string order is total |
| StringOrder.StrLeTransitive | guild/flag_util.py:64 | Python's string order is transitive |
| StringOrder.StrLeAntisymmetric | guild/flag_util.py:64 | Python's string order is antisymmetric |
| StringOrder.Insert | guild/flag_util.py:64 | insertion adds exactly one element |
| StringOrder.InsertSorted | guild/flag_util.py:64 | insertion keeps a sequence sorted by key |
| StringOrder.SortByKey | guild/flag_util.py:64 | sorting by key is a permutation |
| StringOrder.SortByKeySorted | guild/flag_util.py:64 | the result of sorting by key is sorted by key |
| StringOrder.SortedPermutationUnique | guild/flag_util.py:64 | two key-sorted permutations of one sequence with distinct keys are equal, so `sorted(d.items())` has one answer |
| FlagUtil.NatToDecimal | guild/flag_util.py:44 | `str` of a natural is non-empty decimal digits with no leading zero |
| FlagUtil.NatToDecimalValue | guild/flag_util.py:44 | the decimal digits read back as the number |
| FlagUtil.IntToDecimal | guild/flag_util.py:44 | `str` of an int is '-' exactly when it is negative, followed by decimal digits without leading zeros that denote its absolute value |
| FlagUtil.YamlEncode | guild/flag_util.py:50-56 | the dump is stripped, then a trailing "\n..." document-end marker is removed when present |
| FlagUtil.EncodeStr | guild/flag_util.py:58-59 | a string is its YAML encoding, put in single quotes when that encoding reads as a float |
| FlagUtil.EncodeFlagVal | guild/flag_util.py:28-44 | True and False are "yes" and "no", None is "null", an int is its decimal text, a float and a str go through YAML, a list is bracketed, a dict braced, and any other value is its `str()` |
| FlagUtil.StripYaml | guild/flag_util.py:53-56 | a single trailing "\n..." is removed; otherwise the text is unchanged |
| FlagUtil.QuoteFloat | guild/flag_util.py:67-74 | text that parses as a float is put in single quotes; other text is unchanged |
| FlagUtil.EncodeList | guild/flag_util.py:46-48 | a list encodes between '[' and ']', and the empty list as "[]" |
| FlagUtil.EncodeDict | guild/flag_util.py:61-65 | a dict encodes between '{' and '}' |
| FlagUtil.EncodeListAppend | guild/flag_util.py:46-48 | a list's encoding is "[" + the ", "-joined encodings of its elements + "]": one more element adds ", " and its encoding |
| FlagUtil.EncodeDictAscending | guild/flag_util.py:61-65 | a dict encodes as "{" + ", "-joined "key: value" encodings in ascending key order + "}" |
| FlagUtil.ScalarRoundTrip | guild/flag_util.py:76-88 | True, False, None and ints encode as yes/no/null/decimal and decode back to themselves when YAML and `int` read those texts back |
| FlagUtil.NameRunLen | guild/flag_util.py:23 | the name part of the function pattern is the longest leading run of `[a-zA-Z0-9_\-.]` |
| FlagUtil.MatchFunction | guild/flag_util.py:23 | a match is a name run, '[', an inner text without newline, ']' and trailing whitespace |
| FlagUtil.MatchFunctionOf | guild/flag_util.py:23 | every such text matches, with exactly that name and inner text |
| FlagUtil.NotAFunction | guild/flag_util.py:110-112 | a bare name without brackets does not match the pattern |
| FlagUtil.ArgPieces | guild/flag_util.py:114-118 | the argument pieces are no longer than the inner text |
| FlagUtil.DecodeArgs | guild/flag_util.py:119 | there is one argument per piece: the decoded stripped piece, in order |
| FlagUtil.DecodeFlagVal | guild/flag_util.py:76-78 | the empty text decodes to the empty string |
| FlagUtil.YamlParse | guild/flag_util.py:90-105 | text that reads as an unnamed flag function with two or more arguments is kept as text; anything else is what the YAML loader gives |
| FlagUtil.DecodeFlagFunction | guild/flag_util.py:107-120 | a non-string is ValueError("requires string"), text the pattern does not match is ValueError("not a function"), and a match gives its name (None when empty); the arguments are stated by DecodeFlagFunctionOf |
| FlagUtil.DecodeFlagFunctionRequiresString | guild/flag_util.py:108-109 | a value that is not a string raises ValueError("requires string") |
| FlagUtil.DecodeFlagFunctionOf | guild/flag_util.py:107-120 | `name[inner]` gives the name (None if empty) and () for a blank inner text, else one decoded stripped argument per ':' piece |
| FlagUtil.DecodeFlagFunctionParsed | guild/flag_util.py:107-120 | conversely, every accepted input is a string of the form `name[inner]` plus trailing space, and the name returned is None exactly when it is empty |
| FlagUtil.FunctionCallRoundTrip | guild/flag_util.py:107-120 | `name[a1:...:an]` with clean arguments decodes to that name and the arguments decoded one by one |
| FlagUtil.UnnamedFunctionKeptAsText | guild/flag_util.py:90-105 | an unnamed flag function with at least two arguments decodes to its own text, not a YAML value |
| FlagUtil.DigitRunLen | guild/flag_util.py:161 | the digit run is the longest leading run of decimal digits |
| FlagUtil.SplitDecRuns | guild/flag_util.py:161 | the pieces of `re.split(r"(\.[0-9]+)", s)` join back to s |
| FlagUtil.SplitDecRunsWellSplit | guild/flag_util.py:161 | every captured piece is '.' + digits, no text piece contains a '.'-digit start, and a text after a run does not start with a digit |
| FlagUtil.PyPrefix | guild/flag_util.py:166-171 | Python's `part[:m]` is a prefix of the length Python gives, including negative m |
| FlagUtil.MaybeTruncateDecPart | guild/flag_util.py:166-171 | text not starting with '.' is kept; a short part is kept; a '.' part is cut to a prefix of at most trunc_len + 1 characters |
| FlagUtil.TruncateRuns | guild/flag_util.py:162-164 | each run is truncated by `_maybe_truncate_dec_part` and each text between runs is kept |
| FlagUtil.TruncateFormattedFloatAsWritten | guild/flag_util.py:160-171 | as written: the text before the first run is itself offered for truncation and comes first |
| FlagUtil.TruncateFormattedFloat | guild/flag_util.py:160-171 | corrected definition: the text before the first run is kept as it is |
| FlagUtil.TruncateFormattedFloatShape | guild/flag_util.py:160-171 | corrected definition: the truncated text keeps all text outside the `.digits` runs, and each run becomes a prefix of itself with at most trunc_len digits |
| FlagUtil.TruncateWithoutRuns | guild/flag_util.py:160-164 | corrected definition: text without a `.digits` run is not changed |
| FlagUtil.AsWrittenWithoutRuns | guild/flag_util.py:160-171 | as written, text without a run is still passed through `_maybe_truncate_dec_part` |
| FlagUtil.TruncateAsWrittenCutsText | guild/flag_util.py:160-171 | ".inf" truncated to 2 is ".in" as written and ".inf" as intended |
| FlagUtil.AsWrittenAgrees | guild/flag_util.py:160-171 | the code as written and the corrected definition agree whenever no text between the runs starts with '.' |
| FlagUtil.TruncLen | guild/flag_util.py:137-144 | True gives 5, False gives 0, an int gives itself, and anything else is a ValueError |
| FlagUtil.QuoteEncoded | guild/flag_util.py:146-158 | a string value whose encoding has a space and does not start with a quote is written as its repr; anything else is unchanged |
| FlagUtil.FormatFlag | guild/flag_util.py:130-135 | it fails exactly for a float with an invalid truthy truncate_floats |
| FlagUtil.FormatFlagValue | guild/flag_util.py:130-135 | without truncation the result is the quoted encoding; a float's encoding is truncated as `_truncate_formatted_float` is written, to `_trunc_len`; non-strings are never quoted |
| FlagUtil.FormatFlagCutsInf | guild/flag_util.py:130-135 | when YAML dumps the float as ".inf", formatting it with truncation length 2 gives ".in" |
| FlagUtil.FormatAssigns | guild/flag_util.py:123-128 | there is one "name=value" line per flag, in order; it fails exactly when some flag fails |
| FlagUtil.FormatFlags | guild/flag_util.py:122-125 | there is one line per flag; it fails exactly for an invalid truthy truncate_floats with some float flag |
| FlagUtil.FormatFlagsAscending | guild/flag_util.py:122-128 | the lines are the "name=value" lines of the flags in ascending name order |
| ClickUtil.FindPathSeparator | guild/click_util.py:192 | the first ", " with a character before it and at least one after it |
| ClickUtil.NormalizeCommandPath | guild/click_util.py:191-193 | the result is a prefix of the path |
| ClickUtil.NormalizeAtFirstSeparator | guild/click_util.py:191-193 | a one-line path gives the text before its first inner ", " |
| ClickUtil.NormalizeWithoutSeparator | guild/click_util.py:191-193 | a path without such a separator is returned unchanged |
| ClickUtil.DropSpace | guild/click_util.py:41 | a leading space is always dropped, exactly one; text without one is unchanged |
| ClickUtil.SplitAliases | guild/click_util.py:41 | `re.split(", ?", name)` gives at least one alias, none containing ',' |
| ClickUtil.SplitAliasesJoin | guild/click_util.py:41 | a ", "-joined alias list splits back into its aliases |
| ClickUtil.GetCommandName | guild/click_util.py:39-45 | the name is the full name of the first command listing it as an alias, or the requested name unchanged when none does |
| ClickUtil.ReplaceAll | guild/click_util.py:61-63 | the output is built only from the text and the replacement, and a first character that does not start a match is kept |
| ClickUtil.ReplaceAllLeftmost | guild/click_util.py:61-63 | the leftmost occurrence is replaced, the text before it is kept, and the scan resumes after it, so occurrences do not overlap |
| ClickUtil.ReplaceAllAbsent | guild/click_util.py:61-63 | a text without the pattern is unchanged |
| ClickUtil.ReplaceAllRemovesChar | guild/click_util.py:51 | removing a one-character pattern leaves none of it |
| ClickUtil.RemoveDoubleStars | guild/click_util.py:54 | after removing "**" the text holds no "**" |
| ClickUtil.UpperChar | guild/click_util.py:53 | each of a-z maps to its own capital, 32 code points lower; other characters are kept |
| ClickUtil.Upper | guild/click_util.py:53 | upper-casing keeps the length and upper-cases each character in place |
| ClickUtil.UpperHeadings | guild/click_util.py:52-53 | the heading rewrite adds no characters except newlines and capitals |
| ClickUtil.HeadingLineUpper | guild/click_util.py:52-53 | a line "### X" becomes X in upper case |
| ClickUtil.UpperHeadingsLine | guild/click_util.py:52-53 | the rewrite works line by line: each line is rewritten on its own, and the rest follows its newline |
| ClickUtil.FormatText | guild/click_util.py:60-63 | the loop applies the four substitutions in order; the output has no backtick and no "**" |
| ClickUtil.TextSubsInOrder | guild/click_util.py:49-55 | the substitutions are "``" to "'", "`" removed, headings upper-cased, "**" removed, in that order |
| ClickUtil.DlRows | guild/click_util.py:126-129 | one {term, help} object per row, in order |
| ClickUtil.JsonHelpFormatter.constructor | guild/click_util.py:69-75 | a new formatter holds only the version, no help buffer and no current list |
| ClickUtil.JsonHelpFormatter.WriteUsage | guild/click_util.py:77-81 | "usage" is set to {prog, args} and nothing else changes |
| ClickUtil.JsonHelpFormatter.WriteParagraph | guild/click_util.py:83-85 | a newline is appended to an open buffer; with no buffer it is a no-op; after finalizing it raises AttributeError |
| ClickUtil.JsonHelpFormatter.Indent | guild/click_util.py:95-97 | a missing buffer becomes an empty list; an open or finalized buffer is kept |
| ClickUtil.JsonHelpFormatter.Dedent | guild/click_util.py:99-103 | an open buffer is joined into "help" and finalized; otherwise nothing changes, so "help" is written at most once |
| ClickUtil.JsonHelpFormatter.WriteText | guild/click_util.py:105-108 | text is appended to an open buffer in call order; a missing or finalized buffer fails the assertion |
| ClickUtil.JsonHelpFormatter.EnterSection | guild/click_util.py:110-119 | "Options"/"Commands" install a fresh list under their key as the current list and indent; any other name raises AssertionError and changes nothing |
| ClickUtil.JsonHelpFormatter.WriteDl | guild/click_util.py:124-129 | the rows are appended as {term, help} to the current list, in order; with no current list the assertion fails |
| ClickUtil.JsonHelpFormatter.WriteSection | guild/click_util.py:110-129 | a section block with one `write_dl` leaves exactly those rows under its key, sets "help" to the joined buffer ("" when none was started) unless it was already written, keeps every other key, and finalizes the help text |
| ClickUtil.Decorated.constructor | guild/click_util.py:140 | a function starts without `__click_params__` |
| ClickUtil.Reversed | guild/click_util.py:141 | `reversed` keeps the length and mirrors the indices |
| ClickUtil.ReversedTwice | guild/click_util.py:141 | reversing twice gives the sequence back |
| ClickUtil.AppendParams | guild/click_util.py:139-141 | the existing parameters (or none) are kept, followed by the new ones in reverse order |
| ClickUtil.FormatMissingParameter | guild/click_util.py:161-162 | the message is "missing argument for " + the parameter name |
| ClickUtil.FormatNoSuchOption | guild/click_util.py:164-169 | the message names the option and, when there is one, the first possibility |
| ClickUtil.NoSuchOptionFirstOnly | guild/click_util.py:164-169 | possibilities after the first never change the message |
| ClickUtil.FirstLine | guild/click_util.py:173-182 | what `.` can match: a newline-free prefix |
| ClickUtil.LastIndexFrom1 | guild/click_util.py:175 | the greedy group ends at the last quote after at least one character |
| ClickUtil.FirstIndexFrom1 | guild/click_util.py:177-180 | the lazy group ends at the first ')' after at least one character |
| ClickUtil.MatchNoSuchCommand | guild/click_util.py:175 | a match is the prefix, a non-empty name and a quote at the start of the message |
| ClickUtil.MatchExtraArgument | guild/click_util.py:177-180 | a match is the prefix, non-empty arguments and ')' at the start of the message |
| ClickUtil.NoSuchCommandRewrite | guild/click_util.py:171-185 | click's "No such command" message becomes "unrecognized command '<name>'" |
| ClickUtil.ExtraArgumentRewrite | guild/click_util.py:171-185 | click's "Got unexpected extra argument (..)" becomes "unexpected extra argument '..'" |
| ClickUtil.ExtraArgumentsRewrite | guild/click_util.py:171-185 | the plural message matches the third rewrite, not the singular one |
| ClickUtil.UsageErrorUnchanged | guild/click_util.py:183-185 | a message that matches no pattern is returned unchanged |
| ClickUtil.FormatUsageError | guild/click_util.py:171-185 | the first of the three patterns that matches decides the rewrite, and a message none matches is returned unchanged |
| ClickUtil.FormatClickErrorMessage | guild/click_util.py:151-159 | a missing parameter, an unknown option and a usage error each get their own rewrite; any other error keeps its message |
| ClickUtil.CmdHelp | guild/click_util.py:187-189 | the help command is the normalized command path, a space and the first help option |
| ClickUtil.CmdHelpNamesCommand | guild/click_util.py:187-193 | a one-line path with aliases is named by its text before the first inner ", " |
| ClickUtil.CmdHelpWholePath | guild/click_util.py:187-193 | a path without aliases is named whole |
| ClickUtil.HelpHint | guild/click_util.py:146-148 | the hint is "\nTry '<help command>' for more information." |
| ClickUtil.FormatErrorMessage | guild/click_util.py:143-149 | the error's message, followed by "\nTry '<cmd help>' for more information." exactly when there is a context |
| ClickUtil.WithHint | guild/click_util.py:144-149 | the message is kept as a prefix, followed by the hint exactly when there is a context |

## Left out

- The `EntryPointResources` registry is not part of this model. It lives in `guild/entry_point_util`, which is not modelled, and covers `for_name`, iteration, cache rebuilds and root priority. Only `set_path` and `add_model_path` are modelled, as updates of the path list.
- `_register_model_finder`, `_model_finder` and the `sys.path_hooks` and `pkg_resources` registration are process-global import machinery and are not modelled. `ModelImporter.__init__` is kept only as its acceptance test over a given listing (`GuildModel.ImporterAccepts`).
- The collaborators `modelfile.from_file`, `namespace.apply_namespace`, `os.path.relpath`/`dirname`/`abspath`, file reading and MD5 are uninterpreted function parameters.
- Logging: `GuildModel.LoadDistModeldefs` and `GuildModel.TryAccModeldefs` return the warnings that `_load_dist_modeldefs` and `_try_acc_modeldefs` log, and `GuildModel.EnsureDistModeldefs` drops them, as the log does not reach its caller. The warning of `_modelfile_hash` is not modelled; only its "-" result is. The text of the log lines is not modelled.
- `pkg_resources.Distribution` and `EntryPoint` construction are records holding the fields the source sets.
- YAML dumping and loading, `float()`, `int()` and `repr` are fields of `FlagUtil.Codec`. The model does not state YAML's own grammar.
- ModelNames.EscapeProjectName: a Python `str` can hold lone surrogates (for example, a path decoded with `surrogateescape`), and `name.encode("utf-8")` raises UnicodeEncodeError on them. A Dafny `char` cannot hold a surrogate, so the escape is total here and that error is not modelled.
- FlagUtil.EncodeFlagVal: dict keys are strings, whereas Python allows keys of any type in `sorted(d.items())`.
- FlagUtil.ScalarRoundTrip: the round trip is proved for booleans, None and ints only. Floats, strings, lists and dicts depend on YAML's reading of the text, which is a parameter here.
- FlagUtil.FormatFlagsAscending: the ascending order is stated for flags with distinct names, as in a dict.
- Whitespace for `strip` and `\s` is the ten ASCII characters Python counts: space, tab, line feed, vertical tab, form feed, carriage return and U+001C to U+001F. Non-ASCII whitespace such as U+0085 and U+00A0 is not. `upper()` maps only a-z. Python's full Unicode tables are not modelled.
- ClickUtil.CmdHelp requires a non-empty list of help option names. The source would raise IndexError on an empty one, and click always supplies `--help`.
- ClickUtil.FormatErrorMessage: each kind of click error carries the text its `format_message()` gives. The click exception classes themselves are not modelled.
- The `section` and `indentation` context managers of `JSONHelpFormatter` are modelled as their entry (`EnterSection`, `Indent`) and exit (`Dedent`). `contextlib` itself is not modelled.
- `getvalue` (`json.dumps`), `guild.version()` (a constructor parameter), `HelpFormatter.write_text`'s call into click, `use_args` and `Args` are thin wrappers over code outside the model.
- `Group.get_command` is modelled up to the name it passes to click's own lookup, which is not modelled.
- The pattern substitutions are written as direct string functions. No general regular-expression engine is modelled.

## Findings

| source | as written | input that shows it | evidently intended | confidence | as-written member | corrected member |
|---|---|---|---|---|---|---|
| guild/flag_util.py:160-171 | `_truncate_formatted_float` passes every piece of the split to `_maybe_truncate_dec_part`, including the text between the `.digits` runs, so text that starts with '.' is cut too | `format_flag(float("inf"), 2)` formats ".inf" and truncates it to ".in" (`TruncateAsWrittenCutsText`, `FormatFlagCutsInf`) | only the captured `.digits` runs are truncated and all other text is kept | not executed | FlagUtil.TruncateFormattedFloatAsWritten | FlagUtil.TruncateFormattedFloat |
