# easycli command engine in Dafny

A model of the parsing and binding pipeline of easycli. In easycli a program
registers annotated command handlers. Each raw command line is then
1. tokenized;
2. matched to a handler by its first token;
3. bound: its flags, positional arguments and out-of-band metadata objects fill
   the handler's typed parameter slots, with type coercion, optional and default
   values, and a trailing array that takes the rest;
4. passed to the handler.

The usage texts produced from the same handler descriptions are part of the
model too.

Java reflection is replaced by explicit descriptions:
- a `CommandSpec` holds a command's name, its parameters and its @Usage text;
- a `ParamSpec` holds a parameter's declared type (`Kind`), its role
  (positional, `@Flag(c, alternative)` or `@Meta`), its policy (required,
  `@Optional` or `@DefaultValue(literal)`) and its @Usage text.

`parse` returns the handler it would invoke, with its parameter values; the
reflective invocation itself is not modelled. Exceptions become the error
variants of `Outcomes.Error`.

The modules follow the source files:

| module | source |
|---|---|
| `Outcomes`, `Params` | the annotations and exceptions, as data |
| `Text` | the `java.lang.String` operations used: ASCII `equalsIgnoreCase`, `compareTo` order, padding |
| `TypeParser` | `util/TypeParser.java` |
| `CliSplitter` | `impl/CliSplitter.java` |
| `Classifier` | the flag and argument streams of `EasyEngine.parse` |
| `Binder` | the binding loop, `handleMetaArgument`, `handleArgument`, `handleFlag` and the surplus check |
| `Registration` | the parameter checks of `EasyEngine.register` |
| `Sorting` | the stable `Stream.sorted` used by the usage printer |
| `UsagePrinter` | `impl/UsagePrinter.java` |
| `EasyEngine` | class `Engine`, with the `commands` map and `register`, `parse`, `usage` and `listCommands` |

Where the code does something surprising, the model keeps it:
- A bare `-` token after the command name makes `parse` fail with a
  string-index error. The failure comes before the command is looked up.
- A `--` token names the empty flag. This switches on every flag declared
  without an alternative.
- An array parameter takes every remaining argument and leaves the argument
  cursor at -1. A later positional parameter then fails with an index error.
  When no arguments remain, the array takes the missing-value path instead.
- The surplus test is reproduced as written:
  `(cmdIndex > 0 && |args| > positional count) || (positional count == 0 && |args| > 0)`.

## Model

| member | source | states |
|---|---|---|
| TypeParser.IsValidType | src/main/java/at/apf/easycli/util/TypeParser.java:8-13 | a type is accepted iff it is int, long, float, double, boolean, char, String or an enum, or a one-dimensional array of one of these |
| TypeParser.DefaultValue | src/main/java/at/apf/easycli/util/TypeParser.java:20-31 | an omitted @Optional parameter gets null exactly for reference types, false for boolean, 0 for int/long/char and 0.0 for float/double |
| TypeParser.ToInt | src/main/java/at/apf/easycli/util/TypeParser.java:59-61 | succeeds iff the token is an optionally signed decimal within 32 bits, and the value is the number written; otherwise NumberFormat |
| TypeParser.ToLong | src/main/java/at/apf/easycli/util/TypeParser.java:63-65 | the same for 64 bits: the number written, or NumberFormat |
| TypeParser.NonCanonicalDecimals | src/main/java/at/apf/easycli/util/TypeParser.java:59-65 | a plus sign, leading zeros and "-0" are read as the number written: "+5" is 5, "007" is 7, "-0" is 0 |
| TypeParser.DecimalRoundTrip | src/main/java/at/apf/easycli/util/TypeParser.java:59-65 | every integer written in decimal parses back to itself, through toInt/toLong when in range |
| TypeParser.ToFloat | src/main/java/at/apf/easycli/util/TypeParser.java:67-69 | a float value or NumberFormat |
| TypeParser.ToDouble | src/main/java/at/apf/easycli/util/TypeParser.java:71-73 | a double value or NumberFormat |
| TypeParser.ToChar | src/main/java/at/apf/easycli/util/TypeParser.java:55-57 | the first character; the empty token fails with an array-index error |
| TypeParser.ToBoolMeaning | src/main/java/at/apf/easycli/util/TypeParser.java:75-77 | true exactly for "true" in any letter case, never an error |
| TypeParser.FindMember | src/main/java/at/apf/easycli/util/TypeParser.java:80-84 | the first constant in declaration order whose name equals the token ignoring case, or none |
| TypeParser.ToEnum | src/main/java/at/apf/easycli/util/TypeParser.java:79-86 | fails with IllegalArgument iff no constant matches ignoring case; otherwise a matching constant of the enum |
| TypeParser.EnumEveryCasing | src/main/java/at/apf/easycli/util/TypeParser.java:79-86 | when no two constants differ only in case, every casing of a constant's name selects that constant |
| TypeParser.ParseType | src/main/java/at/apf/easycli/util/TypeParser.java:33-53 | a success has the declared type; a String is the token itself; arrays and other types give null; failures are NumberFormat, IllegalArgument or an array-index error |
| Text.EqualsIgnoreCaseIsEquivalence | src/main/java/at/apf/easycli/util/TypeParser.java:81 | equality ignoring case is reflexive, symmetric and transitive |
| Text.StrLeTotal | src/main/java/at/apf/easycli/impl/UsagePrinter.java:90-91 | the compareTo order relates any two names |
| Text.StrLeTransitive | src/main/java/at/apf/easycli/impl/UsagePrinter.java:90-91 | the compareTo order is transitive |
| Text.StrLeAntisymmetric | src/main/java/at/apf/easycli/impl/UsagePrinter.java:90-91 | names ordered both ways are equal |
| CliSplitter.NextBoundary | src/main/java/at/apf/easycli/impl/CliSplitter.java:25-33 | the next split point lies between the scan position and the end of the line |
| CliSplitter.NextBoundaryFound | src/main/java/at/apf/easycli/impl/CliSplitter.java:26-30 | a split point before the end of the line is a space outside quotes |
| CliSplitter.NextBoundaryMinimal | src/main/java/at/apf/easycli/impl/CliSplitter.java:25-30 | no position between the scan position and the split point is a space outside quotes |
| CliSplitter.Clean | src/main/java/at/apf/easycli/impl/CliSplitter.java:41-46 | cleaning never adds tokens |
| CliSplitter.CleanLength | src/main/java/at/apf/easycli/impl/CliSplitter.java:41-42 | empty pieces are dropped: one token per non-empty piece |
| CliSplitter.CleanAt | src/main/java/at/apf/easycli/impl/CliSplitter.java:41-46 | the j-th non-empty piece becomes token j, with one leading and one trailing quote removed and every `\"` turned into `"` |
| CliSplitter.Split | src/main/java/at/apf/easycli/impl/CliSplitter.java:20-49 | the scanning loop returns exactly the tokens of the specification: MalformedCommand for an unclosed quote, else the cleaned pieces between unquoted spaces |
| CliSplitter.TokensConcat | src/main/java/at/apf/easycli/impl/CliSplitter.java:25-33 | a line joined at a space outside quotes tokenizes as its two halves, one after the other |
| CliSplitter.EmptyCommand | src/main/java/at/apf/easycli/impl/CliSplitter.java:39-42 | the empty line has no tokens |
| CliSplitter.LeadingSpace | src/main/java/at/apf/easycli/impl/CliSplitter.java:29-42 | a leading space changes nothing |
| CliSplitter.TrailingSpace | src/main/java/at/apf/easycli/impl/CliSplitter.java:29-42 | a trailing space changes nothing |
| CliSplitter.RepeatedSpace | src/main/java/at/apf/easycli/impl/CliSplitter.java:29-42 | two spaces between words split like one |
| CliSplitter.RoundTrip | src/main/java/at/apf/easycli/impl/CliSplitter.java:20-49 | words joined by spaces, quoted ones with their quotes escaped, split back into exactly those words |
| CliSplitter.EmptyQuotedToken | src/main/java/at/apf/easycli/impl/CliSplitter.java:41-44 | `""` is one empty token |
| CliSplitter.UnclosedQuoteFails | src/main/java/at/apf/easycli/impl/CliSplitter.java:35-37 | a line ending inside an opened quote fails with MalformedCommand |
| CliSplitter.TokenCountBound | src/main/java/at/apf/easycli/impl/CliSplitter.java:29-39 | there are at most one more tokens than unquoted spaces |
| Classifier.Classify | src/main/java/at/apf/easycli/impl/EasyEngine.java:103-120 | classification fails, with a string-index error, exactly when some token is a bare `-` |
| Classifier.Singletons | src/main/java/at/apf/easycli/impl/EasyEngine.java:113-115 | a short-flag bundle yields one one-letter flag per character, in order |
| Classifier.FlagMembership | src/main/java/at/apf/easycli/impl/EasyEngine.java:104-116 | a name is an active flag iff some token is `--name`, or is a `-` bundle containing it as a single letter |
| Classifier.TokenKindsExclusive | src/main/java/at/apf/easycli/impl/EasyEngine.java:104-120 | every token but `-` is exactly one of long flag, short bundle or argument; a dash before a digit marks an argument |
| Classifier.Partition | src/main/java/at/apf/easycli/impl/EasyEngine.java:104-120 | the arguments and the flag tokens together are exactly the tokens |
| Classifier.ArgumentsConcat | src/main/java/at/apf/easycli/impl/EasyEngine.java:117-120 | arguments keep their relative order |
| Classifier.FlagPlacement | src/main/java/at/apf/easycli/impl/EasyEngine.java:104-120 | moving a flag token changes neither the arguments nor the set of active flags |
| Binder.CoerceAllMeaning | src/main/java/at/apf/easycli/impl/EasyEngine.java:229-295 | the array element loops: on success, element j is token j parsed to the element type; failure iff some token does not parse |
| Binder.CoerceRest | src/main/java/at/apf/easycli/impl/EasyEngine.java:229-295 | the array loop fills a fresh array with every remaining argument parsed to the element type, and fails with the first that does not parse |
| Binder.HandleArgument | src/main/java/at/apf/easycli/impl/EasyEngine.java:214-302 | handleArgument, with its array loop, computes the specification: missing value past the end, index error at -1, every remaining token for an array, else the parsed token |
| Binder.BindSpec | src/main/java/at/apf/easycli/impl/EasyEngine.java:129-148 | a successful binding fills exactly one value per parameter |
| Binder.Bind | src/main/java/at/apf/easycli/impl/EasyEngine.java:129-148 | the binding loop over a fresh array computes the specification, surplus check included |
| Binder.PrefixCursors | src/main/java/at/apf/easycli/impl/EasyEngine.java:131-141 | after each parameter, the metadata cursor counts the Meta parameters so far; the argument cursor counts the positional ones, or is -1 after an array |
| Binder.Slots | src/main/java/at/apf/easycli/impl/EasyEngine.java:133-141 | flag slot: whether its letter or alternative was given. k-th Meta slot: the k-th metadata object or its missing value. k-th positional slot: the k-th argument parsed, every remaining argument for an array, or its missing value once arguments run out |
| Binder.MissingValue | src/main/java/at/apf/easycli/impl/EasyEngine.java:216-226 | a slot with nothing to take fails with MalformedCommand exactly when it is required; under @Optional it gets the type's default value (null exactly for a reference type); under @DefaultValue the literal parsed to its declared type |
| Binder.MissingSlotExamples | src/main/java/at/apf/easycli/impl/EasyEngine.java:216-226 | with no arguments, a missing @Optional int binds 0 and a missing @DefaultValue("5") int binds 5 |
| Binder.MetaValue | src/main/java/at/apf/easycli/impl/EasyEngine.java:183-202 | handleMetaArgument: the metadata object at the cursor when there is one; past the end, the slot fails with MalformedCommand exactly when the parameter is required |
| Binder.MissingRequiredFails | src/main/java/at/apf/easycli/impl/EasyEngine.java:216-225 | a required Meta or positional parameter with nothing left to take makes parse fail |
| Binder.SurplusRejected | src/main/java/at/apf/easycli/impl/EasyEngine.java:142-148 | without an array parameter, more arguments than positional parameters make parse fail, with MalformedCommand once every slot is bound |
| Binder.SurplusTest | src/main/java/at/apf/easycli/impl/EasyEngine.java:142-148 | once every slot is bound, the surplus test fails the parse, with MalformedCommand, exactly when there is no array parameter and more arguments than positional parameters |
| Binder.BindFlagsAsSet | src/main/java/at/apf/easycli/impl/EasyEngine.java:313-321 | binding depends on the flag list only through which names it contains |
| Registration.ValidateParams | src/main/java/at/apf/easycli/impl/EasyEngine.java:51-83 | the checking loop accepts a parameter list iff it is well formed. Well formed: supported types; boolean flags; an array only as the last positional; no required positional after an optional one |
| Registration.BindNoIndexError | src/main/java/at/apf/easycli/impl/EasyEngine.java:72-75 | for a parameter list register accepts, binding never fails with an index error |
| Sorting.SortSorted | src/main/java/at/apf/easycli/impl/UsagePrinter.java:20-23 | the sort yields a sorted permutation of its input |
| Sorting.SortedUnique | src/main/java/at/apf/easycli/impl/UsagePrinter.java:89-92 | two sorted permutations of the same elements are equal when the order tells distinct elements apart |
| UsagePrinter.ArgumentsMembership | src/main/java/at/apf/easycli/impl/UsagePrinter.java:24-26 | the signature shows exactly the positional parameters: no flag and no Meta parameter |
| UsagePrinter.SignatureLine | src/main/java/at/apf/easycli/impl/UsagePrinter.java:28-48 | the signature-building loops compute the signature |
| UsagePrinter.SignatureHeader | src/main/java/at/apf/easycli/impl/UsagePrinter.java:28-33 | the usage starts with "Usage: " and the name, followed by " [FLAG...]" iff the command has a flag |
| UsagePrinter.UsageFirstLine | src/main/java/at/apf/easycli/impl/UsagePrinter.java:50-51 | the signature stands on a line of its own at the start of the text; the @Usage text, when present, is the next line; with no @Usage text and no flag, nothing follows |
| UsagePrinter.BracketsBalance | src/main/java/at/apf/easycli/impl/UsagePrinter.java:35-48 | after the name, the number of `[` and the number of `]` both equal the number of optional arguments, and the `]` all come at the end |
| UsagePrinter.LongestAlternative | src/main/java/at/apf/easycli/impl/UsagePrinter.java:58-63 | the width is at least every flag's `, --alt` width, and is 0 or attained by a flag with an alternative |
| UsagePrinter.FlagOrder | src/main/java/at/apf/easycli/impl/UsagePrinter.java:20-23 | the flag table lists every flag and nothing else, by ascending trigger letter |
| UsagePrinter.FlagRow | src/main/java/at/apf/easycli/impl/UsagePrinter.java:65-81 | the row loop with its padding loop computes the specified row |
| UsagePrinter.FlagColumns | src/main/java/at/apf/easycli/impl/UsagePrinter.java:58-81 | every row starts with its `-c[, --alt]` head, and its usage text starts at the same column, after two spaces |
| UsagePrinter.FlagTable | src/main/java/at/apf/easycli/impl/UsagePrinter.java:65-82 | the flag loop emits the rows in order |
| UsagePrinter.CommandUsage | src/main/java/at/apf/easycli/impl/UsagePrinter.java:18-85 | commandUsage computes the specified usage text |
| UsagePrinter.LongestName | src/main/java/at/apf/easycli/impl/UsagePrinter.java:93-96 | the width is at least every name's length, and is 0 or some name's length |
| UsagePrinter.ListCommands | src/main/java/at/apf/easycli/impl/UsagePrinter.java:87-108 | listCommands, with its padding loop, computes the specified listing |
| UsagePrinter.EmitLines | src/main/java/at/apf/easycli/impl/UsagePrinter.java:97-106 | the loop over the sorted commands emits their lines in order |
| UsagePrinter.PadName | src/main/java/at/apf/easycli/impl/UsagePrinter.java:98-101 | the padding loop extends a name with spaces to the longest name's width, and leaves a longer name unchanged |
| UsagePrinter.ListingSorted | src/main/java/at/apf/easycli/impl/UsagePrinter.java:89-92 | the listing shows every command once, ordered by name |
| UsagePrinter.ListingColumns | src/main/java/at/apf/easycli/impl/UsagePrinter.java:97-106 | each line starts with its name padded to the longest name, then two spaces and the usage text |
| UsagePrinter.ListingLines | src/main/java/at/apf/easycli/impl/UsagePrinter.java:97-106 | one line per command |
| UsagePrinter.ListingOrderIndependent | src/main/java/at/apf/easycli/impl/UsagePrinter.java:89-92 | the listing does not depend on the order the commands arrive in |
| EasyEngine.RegisterRunKeeps | src/main/java/at/apf/easycli/impl/EasyEngine.java:84-91 | registration keeps every entry under its own non-empty name with accepted parameters, and never replaces an entry |
| EasyEngine.RegisterRunAdds | src/main/java/at/apf/easycli/impl/EasyEngine.java:44-93 | after a successful register every command is found under its name |
| EasyEngine.RegisterRunStops | src/main/java/at/apf/easycli/impl/EasyEngine.java:44-93 | the first failing method ends register, keeping the ones registered before it |
| EasyEngine.Engine.constructor | src/main/java/at/apf/easycli/impl/EasyEngine.java:38 | a new engine has no commands |
| EasyEngine.Engine.Register | src/main/java/at/apf/easycli/impl/EasyEngine.java:51-91 | MalformedMethod for rejected parameters or an empty name; KeyAlreadyExists for a taken name; otherwise the command is added |
| EasyEngine.Engine.RegisterAll | src/main/java/at/apf/easycli/impl/EasyEngine.java:44-94 | register(obj) runs the registrations in turn and stops at the first failure |
| EasyEngine.ParseTokens | src/main/java/at/apf/easycli/impl/EasyEngine.java:103-148 | a successful parse names a registered command and gives one value per parameter |
| EasyEngine.Engine.Parse | src/main/java/at/apf/easycli/impl/EasyEngine.java:102-153 | parse computes the specification. Failures come in order: split error, dash error, empty line, unknown command, binding error |
| EasyEngine.FlagPlacement | src/main/java/at/apf/easycli/impl/EasyEngine.java:104-120 | a flag token may stand anywhere after the command name with the same result |
| EasyEngine.BareDash | src/main/java/at/apf/easycli/impl/EasyEngine.java:109-112 | a bare `-` after the command name fails with a string-index error |
| EasyEngine.DoubleDash | src/main/java/at/apf/easycli/impl/EasyEngine.java:319 | `--` switches on every flag without an alternative |
| EasyEngine.AddExample | src/main/java/at/apf/easycli/impl/EasyEngine.java:102-153 | "/add 5 1" binds the handler's two int parameters to 5 and 1 |
| EasyEngine.Engine.Usage | src/main/java/at/apf/easycli/impl/EasyEngine.java:161-171 | usage: split error, index error for an empty line, CommandNotFound, else the command's usage text |
| EasyEngine.Engine.ListCommands | src/main/java/at/apf/easycli/impl/EasyEngine.java:156-158 | the listing of all registered commands, the same whatever order the map yields them in |

## Left out

- Reflection and invocation: parse stops at the handler and its argument
  values. Whatever the handler returns or throws is not modelled, and neither
  is the mismatch between the boxed zero values of `defaultValue` and the
  parameter's primitive type.
- Float.parseFloat and Double.parseDouble are a parameter (`FloatParsers`).
  Every property holds for any choice of them.
- TypeParser.ToInt, TypeParser.ToLong: only ASCII digits are accepted. The
  Java parsers also accept other Unicode decimal digits.
- Text.EqualsIgnoreCase folds only ASCII letters. Java also folds non-ASCII
  letters, so enum lookup differs on such input.
- TypeParser.ToChar, Classifier.Singletons, Text.StrLe, UsagePrinter.AltWidth,
  UsagePrinter.LongestName, UsagePrinter.PadName: a string is a sequence of
  Unicode scalar values, while Java's `toCharArray`, `chars`, `length` and
  `compareTo` work on UTF-16 code units. For a character outside the Basic
  Multilingual Plane, Java returns its high surrogate as the char, splits a
  short-flag bundle into two surrogates, counts two units of width, and
  orders it before characters from U+E000 up; the model does none of this.
- UsagePrinter.ComponentName writes "class " and the simple name for a
  non-primitive array element. Java writes the fully qualified class name.
- A parameter has one role and one policy. When both @Meta and @Flag are
  present, Meta wins, as in register and parse. commandUsage differs: it
  picks flags by @Flag alone, so Java lists such a parameter in the flag
  table and adds " [FLAG...]" to the signature, while the model leaves it out
  of the usage text. When both @Optional and @DefaultValue are present,
  Optional wins.
- The order of `getDeclaredMethods` is unspecified in Java. RegisterAll takes
  the methods in the order given.
- The enumeration order of the HashMap in listCommands is a ghost choice. The
  listing is proved not to depend on it.
- Thread safety of the engine is out of scope.
- Sorting: stability of the sort is not proved. The flag table can differ
  from Java only in the relative order of two flags with the same trigger
  letter.
- UsagePrinter.BracketsBalance assumes that type names contain no square
  brackets, which holds for Java class names.
- The `TypeParsre.java` duplicate of the type parser is not part of this
  model.
