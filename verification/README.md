# A model of a BACnet/WS server

This project models the parts of the AMPII XD server in which its answers are decided - reading and writing JSON,
evaluating filters, addressing items, paging, building prototypes from definitions, and guarding the data against
concurrent writers - and proves what each of them promises. The server implements BACnet/WS (Annex W of ANSI/ASHRAE
135-2016); the JSON it reads and writes is that of RFC 8259 and the XML that of XML 1.0.

Text is a sequence of UTF-16 code units, as in the original. Where the original works by changing state, so does the
model: the readers, the JSON generator, the filter evaluator, the prototype store, the sessions and the tag search are
classes whose methods are proved to do what a function of the old state says, and the laws are then proved about those
functions. Java's int is modelled with its wrap-around where it can occur. Inductions are written out, with automatic
induction off.

| modules | what they model |
|---|---|
| CodeUnits, Reader | characters, and the reader with one character of lookahead under every parser |
| DataTree, Decimals, ChildNames | items and base types, printed ints, and the search for a free child name |
| JsonStrings, JsonParsing, JsonNames, JsonShape | JSON strings, the JSON parser, and what it guarantees of any text it accepts |
| JsonDocuments, JsonGenerating | the JSON document that describes an item, and the generator that writes it |
| JsonRoundTrip, JsonItems | what a reader gets back from a rendered document and from a generated item |
| Filters, FilterMeaning | the filter evaluator, and the Boolean meaning of the expression behind the tokens |
| FilterText, FilterSpelling | cutting a filter into tokens, and all the ways to spell an expression |
| Paging | a page of children and the pointer to the next one |
| Prototypes, PrototypeCache, PrototypeMaking, PrototypeShape, PrototypeContents | flattening definitions, the cache, the objects that do it, and what the results look like |
| Locking, Sessions, MultiWrite | the write lock under all interleavings, sessions call by call, and multiple writes |
| Addressing, Tagging | evaluating and printing paths, and the `tagged()` search |
| XmlText | XML attribute values and comments |

The main results, hardest first:

* Filters (`FilterSpelling.FilterMeansExpression`, `FilterMeaning.PrecheckIsExact`): any expression, printed with any
  blanks and encodings, is cut and evaluated to its Boolean meaning. On candidates whose accessors do not throw, a
  filter that passed the check made at the start of a request can still throw, if and only if it compares in order with
  something that is not a number.
* JSON (`JsonItems.GenerateThenParse`, `JsonItems.SameTreeBack`): the generated text of an item parses back to the same
  names, values, metadata and children, whichever form each leaf was written in. A quoted text reads back if and only if
  it does not end in a backslash (`JsonStrings.QuotedTextExact`), because the scanner looks only one character back. An
  array becomes its elements, numbered in order (`JsonRoundTrip.ArrayIsItsElements`).
* Prototypes (`PrototypeCache.EveryRunAgrees`, `PrototypeCache.GetGivesFlattening`, `PrototypeCache.CirclesAreRefused`):
  over any run of requests the cache agrees with the uncached flattening and is closed; circular definitions end in an
  exception and are never cached. What the cache does change is which deep definitions are accepted: a request succeeds
  if and only if the levels it needs, counted with the names cached so far, are within the limit
  (`PrototypeShape.HistoryMatters` shows how far the order of requests moves that). What a prototype and an instance of
  it hold is spelled out (`PrototypeContents.PrototypeHas`, `PrototypeShape.InstanceHasTheRest`).
* The write lock (`Locking.OneWriterAtATime`, `Locking.PermitIsExact`, `Locking.GuardIsExact`): over all interleavings
  there is one writer at a time and no permit is made up, if and only if nobody starts closing a session while
  another thread is past the test for that same session. One owner for each session is enough for that
  (`Locking.OneHolderAtATime`), though not needed. No permit is lost (`Locking.LockComesBack`).
* Tags (`Tagging.TaggedIsExact`): the paths returned are those of exactly the items in reach with all the tags, in
  document order, and lead back to them.
* Child names (`ChildNames.NewNameIsExact`): the name of a new child, and exactly when the search for it wraps around
  to a name already taken.
* Paths (`Addressing.RelativePathLeadsBack`, `Addressing.EvaluationComposes`): printed paths lead back to the item, and
  evaluation composes.
* Pages (`Paging.PagesPartition`, `Paging.PartitionIsExact`): following the next pointers collects every included child
  once, if and only if there is one page, or max-results is given and the skip is not negative.

Assumptions. Which items are visible or readable, what makes the cut, what tags an item has, what a filter's left side
evaluates to, what counts as a number, URL decoding, and what writing an entry does to a copy of the data are
parameters: fixed, but arbitrary. Stored items have distinct names among siblings, as the original's `addLocal` ensures.
The sessions of module Sessions are used by one thread each; module Locking says what happens when they are not.

Where code and comments differ the model follows the code. The comment on `isFiltered` says that a checked filter
should not throw; it can, as stated above. The depth of `tagged()` is documented as a limit of levels; with the
smallest int it is none (`Tagging.LimitIsKept`). A function call without arguments is not refused when a right
parenthesis follows: it swallows that one (`FilterSpelling.CallWithoutArguments`). In JSON strings a sign is taken
for the first of four hexadecimal digits, which RFC 8259 does not allow (`JsonStrings.ReadingIsSpelled`).

## Model

| member | source | states |
|---|---|---|
| Reader.Parser.Consume | src/org/ampii/xd/marshallers/Parser.java:151-166 | delivers exactly the next character of what is left to read and leaves the rest; line and column are those of the characters read so far |
| Reader.Parser.PeekNext | src/org/ampii/xd/marshallers/Parser.java:140-143 | looking ahead loses nothing: the same text is left to read, but for a NUL, which is dropped |
| Reader.Parser.SkipWhitespace | src/org/ampii/xd/marshallers/Parser.java:66-68 | leaves the text from its first character that is not a blank |
| Reader.Parser.PeekNextNonwhite | src/org/ampii/xd/marshallers/Parser.java:145-149 | returns the first character that is not a blank and leaves the text from it on |
| Reader.Parser.Expect | src/org/ampii/xd/marshallers/Parser.java:70-78 | succeeds exactly if the first character that is not a blank is the expected one, and consumes it either way |
| Reader.Parser.ConsumeUntil | src/org/ampii/xd/marshallers/Parser.java:96-102 | returns the text up to the first delimiter, NUL or end, and leaves what follows |
| Reader.StopIsUnique | src/org/ampii/xd/marshallers/Parser.java:88-102 | the longest delimiter-free prefix is the only place such a scan can stop |
| Reader.SkipWhiteIsSuffix | src/org/ampii/xd/marshallers/Parser.java:66-68 | without NUL, skipping blanks leaves a suffix that starts with no blank |
| Reader.BlanksAreSkipped | src/org/ampii/xd/marshallers/Parser.java:66-68 | the blanks skipped are spaces, tabs, carriage returns, line feeds and form feeds, and nothing else |
| Reader.OneOperation | src/org/ampii/xd/marshallers/Parser.java:66-166 | on text without NUL, one operation takes off some blanks, if it is one that skips them, and then exactly what it hands out: one character or none at the end, or the text up to a delimiter |
| Reader.NothingIsLost | src/org/ampii/xd/marshallers/Parser.java:66-166 | for any run of peek, skip, expect, consume and consumeUntil on text without NUL, the pieces handed out in order, with only skipped blanks between them, and then what is left make up the input: nothing lost, repeated or reordered |
| DataTree.BaseNameRoundTrip | src/org/ampii/xd/data/Base.java:51-53 | reading back the printed name of any base type gives that base type |
| DataTree.AddLocalKeepsDistinctNames | src/org/ampii/xd/data/abstractions/AbstractData.java:1016-1021 | adding an item keeps the names of siblings distinct, whatever its name |
| Decimals.ParsePrinted | src/org/ampii/xd/data/Rules.java:103-108 | a printed int parses back to itself, so distinct ints have distinct numerals |
| ChildNames.GetNextAvailableChildName | src/org/ampii/xd/data/Rules.java:73-112 | the name computed, or the refusal, for every kind of base, with the search loop |
| ChildNames.SearchNextNumber | src/org/ampii/xd/data/Rules.java:92-107 | the loop computes the fold of the numbers used up by the siblings, with 32-bit wrap-around |
| ChildNames.NextNumberIsAbove | src/org/ampii/xd/data/Rules.java:92-107 | when no sibling uses up the largest int, the number found is above every number used up |
| ChildNames.NumberIsFree | src/org/ampii/xd/data/Rules.java:92-107 | when no sibling uses up the largest int, no sibling is called by the prefix and the number found or a larger one, with or without an underscore between |
| ChildNames.SearchFindsNumber | src/org/ampii/xd/data/Rules.java:92-107 | the number found is one more than the largest used up since the last wrap-around; without any, 1 if there was none and the smallest int if there was |
| ChildNames.NewNameIsExact | src/org/ampii/xd/data/Rules.java:86-108 | the new name, for every list of siblings, and when a child already has it: if and only if the prefix is taken, a sibling uses up the largest int, and a sibling not after the last such one (any sibling, if none after it uses up a number) has the numbered name |
| ChildNames.NewNameIsFresh | src/org/ampii/xd/data/Rules.java:86-108 | in particular no child has the new name if no numeric suffix is the largest int |
| ChildNames.NamesByBase | src/org/ampii/xd/data/Rules.java:73-91 | in numbered containers the name is the position, or in a part of one the given number if it is one and new, and otherwise refused; any other base takes the given name, but for a missing or repeated one where names are free |
| ChildNames.LargestSuffixBreaksFreshness | src/org/ampii/xd/data/Rules.java:92-108 | concrete siblings for which the new name is already taken |
| JsonStrings.EscapeText | src/org/ampii/xd/marshallers/JSONGenerator.java:226-235 | the escaping loop writes the escape of each character in order |
| JsonStrings.UnescapeText | src/org/ampii/xd/marshallers/JSONParser.java:220-249 | the unescaping loop computes the unescaped text, or complains exactly where an escape is malformed or cut off |
| JsonStrings.UnescapeEscape | src/org/ampii/xd/marshallers/JSONGenerator.java:226-235 | unescaping what was escaped gives it back, for every text |
| JsonStrings.EscapedIsPrintable | src/org/ampii/xd/marshallers/JSONGenerator.java:226-235 | what is written for a text holds no control character and no quotation mark without a backslash before it |
| JsonStrings.SpellingIsRead | src/org/ampii/xd/marshallers/JSONParser.java:220-249 | any spelling of a text by section 7 of RFC 8259, character by character, literally, by a short escape or by four hexadecimal digits in either case, is read as that text |
| JsonStrings.ReadingIsSpelled | src/org/ampii/xd/marshallers/JSONParser.java:220-249 | whatever is read is spelled so, except that a sign and three hexadecimal digits are taken, too |
| JsonStrings.BodyOfEscaped | src/org/ampii/xd/marshallers/JSONParser.java:187-192 | the scan for the closing quote passes over any escaped text that does not end in a backslash before a quote |
| JsonStrings.QuotedTextReadsBack | src/org/ampii/xd/marshallers/JSONParser.java:183-195 | a text not ending in a backslash reads back from its quoted form, and the reader stops right after the closing quote |
| JsonStrings.FinalBackslashSwallowsQuote | src/org/ampii/xd/marshallers/JSONParser.java:183-195 | a final backslash makes the reader run past the closing quote or fail |
| JsonStrings.QuotedTextExact | src/org/ampii/xd/marshallers/JSONParser.java:183-195 | reading back a quoted text is exact if and only if the text does not end in a backslash |
| JsonParsing.JsonParser.ConsumeDoubleQuoted | src/org/ampii/xd/marshallers/JSONParser.java:183-195 | returns the unescaped body of a quoted string and leaves what follows its closing quote, or complains |
| JsonParsing.JsonParser.ConsumePrimitiveValue | src/org/ampii/xd/marshallers/JSONParser.java:168-176 | returns a quoted string, or the text up to the next delimiter |
| JsonParsing.JsonParser.ParseText | src/org/ampii/xd/marshallers/JSONParser.java:25-31 | parsing a document of the modelled kind is reading one object from its text |
| JsonParsing.JsonParser.ConsumeObject | src/org/ampii/xd/marshallers/JSONParser.java:36-114 | returns the item an object describes, or the first complaint, and leaves the text after it; terminates on every input |
| JsonParsing.JsonParser.ConsumeValue | src/org/ampii/xd/marshallers/JSONParser.java:44-102 | each reserved member name has its effect on the item; any other member is added, a child under an available name |
| JsonParsing.JsonParser.ConsumeMember | src/org/ampii/xd/marshallers/JSONParser.java:119-130 | an array, an object or a primitive, told apart by the next character |
| JsonParsing.JsonParser.ConsumeArray | src/org/ampii/xd/marshallers/JSONParser.java:132-145 | the elements become children named 1, 2, 3 and so on |
| JsonShape.QuotedIsRead | src/org/ampii/xd/marshallers/JSONParser.java:183-195 | whatever string is accepted has been read from one quotation mark to another, and the rest is left |
| JsonShape.ObjectIsClosed | src/org/ampii/xd/marshallers/JSONParser.java:36-114 | whatever object is accepted, with anything inside it, has been read from a left brace to a right brace, and the rest is left |
| JsonShape.ArrayIsClosed | src/org/ampii/xd/marshallers/JSONParser.java:132-145 | likewise any array, from a left bracket to a right bracket |
| JsonNames.ObjectIsWellNamed | src/org/ampii/xd/marshallers/JSONParser.java:36-114 | in any item parsed from any text, siblings have distinct names at every level |
| JsonNames.ObjectKeepsMembers | src/org/ampii/xd/marshallers/JSONParser.java:36-114 | an object whose base stays undecided has at most one child per member that is one; it has each of them, in order, as read but for a name that starts with its key, repeated keys included, if and only if no addition runs into the wrap-around of names |
| JsonGenerating.JsonGenerator.SetNewline | src/org/ampii/xd/marshallers/Generator.java:51-54 | there is always a line-break setting for every level in use |
| JsonGenerating.JsonGenerator.EmitWithIndent | src/org/ampii/xd/marshallers/Generator.java:37-40 | writes the indentation of the level and then the text |
| JsonGenerating.JsonGenerator.CheckFirst | src/org/ampii/xd/marshallers/JSONGenerator.java:214-219 | a comma is written exactly when the member is not the first of its object |
| JsonGenerating.JsonGenerator.CheckFirstAndForceNewline | src/org/ampii/xd/marshallers/JSONGenerator.java:220-224 | likewise for a member that is an object, always on a line of its own |
| JsonGenerating.JsonGenerator.EmitStartOfObject | src/org/ampii/xd/marshallers/JSONGenerator.java:188-195 | opens an object one level down, with nothing written in it yet |
| JsonGenerating.JsonGenerator.EmitEndOfObject | src/org/ampii/xd/marshallers/JSONGenerator.java:197-203 | closes it one level up, and the enclosing object is no longer empty |
| JsonGenerating.JsonGenerator.EmitObject | src/org/ampii/xd/marshallers/JSONGenerator.java:36-118 | the text written is the rendering of the members due; indentation and depth are unchanged on return, the object is no longer the first thing, and settings of outer levels are kept |
| JsonGenerating.JsonGenerator.EmitValue | src/org/ampii/xd/marshallers/JSONGenerator.java:120-138 | which value or error member is due, and in which form |
| JsonGenerating.JsonGenerator.EmitSubValue | src/org/ampii/xd/marshallers/JSONGenerator.java:140-160 | the primitive form of a leaf, with its two object forms for an unreadable and for a missing value |
| JsonGenerating.JsonGenerator.EmitMetadata | src/org/ampii/xd/marshallers/JSONGenerator.java:94-105 | every piece of metadata but the type becomes one member, in primitive or object form |
| JsonGenerating.JsonGenerator.EmitChildren | src/org/ampii/xd/marshallers/JSONGenerator.java:107-115 | every child becomes one member, in primitive or object form |
| JsonGenerating.JsonGenerator.Generate | src/org/ampii/xd/marshallers/JSONGenerator.java:26-32 | the whole output is the rendering of the document that describes the item |
| JsonDocuments.ObjectIsLaidOut | src/org/ampii/xd/marshallers/JSONGenerator.java:188-224 | an object is written as braces around its members, with commas between them, each on a line of its own with its name in quotes, a colon and its value, indented by three spaces for every level |
| JsonDocuments.FormsOfParts | src/org/ampii/xd/marshallers/JSONGenerator.java:94-115 | a child is written so if it has metadata or may have children or its base is due, and in primitive form otherwise; metadata if it has metadata or may have children or an extended name; and $type is left out |
| JsonItems.ValueIsWritten | src/org/ampii/xd/marshallers/JSONGenerator.java:120-160 | the value of a readable item is written bare if its base is one of numbers or truth values, and in quotes otherwise, in primitive and in object form; in an object not for unspecified times, or next to an error |
| JsonGenerating.InlineObjects | src/org/ampii/xd/marshallers/JSONGenerator.java:140-150 | in place of the value of an unreadable item stands an object on the same line with error 41, and of one without a value an empty object |
| JsonItems.TopIsWritten | src/org/ampii/xd/marshallers/JSONGenerator.java:46-48 | the top of a document, and no other item in it, gives the locale, and its name unless that is an internal one |
| JsonRoundTrip.BareReadsBack | src/org/ampii/xd/marshallers/JSONParser.java:174-176 | an unquoted value without delimiters reads back before a delimiter |
| JsonRoundTrip.ObjectReadsBack | src/org/ampii/xd/marshallers/JSONParser.java:36-114 | any rendered object, in any layout of blanks, reads back as the item its members describe |
| JsonRoundTrip.SpecialMembers | src/org/ampii/xd/marshallers/JSONParser.java:44-79 | a value after $value, $name or $base becomes that of the item; one after $$defaultLocale or a comment is read and forgotten |
| JsonRoundTrip.CsmlIsExact | src/org/ampii/xd/marshallers/JSONParser.java:108-112 | an object that ends up being called ".csml" is made a Collection if its base is undecided or that, and refused if it is any other |
| JsonRoundTrip.ArrayReadsBack | src/org/ampii/xd/marshallers/JSONParser.java:132-145 | an array, with any blanks around its elements and anything after it, reads back as what its elements stand for, numbered from 1 |
| JsonRoundTrip.ArrayIsItsElements | src/org/ampii/xd/marshallers/JSONParser.java:132-145 | an array of n elements, arrays and objects among them, has exactly n children, in order, the k-th called k and being what the k-th element stands for on its own; with elements that name themselves, exactly if the names they end up with all differ |
| JsonRoundTrip.ParseRendered | src/org/ampii/xd/marshallers/JSONParser.java:36-114 | parsing a rendered document gives the item it describes and leaves nothing |
| JsonItems.ImageDescribed | src/org/ampii/xd/marshallers/JSONGenerator.java:36-118 | the document generated for a legal item describes exactly its image: names, bases, values, metadata and children in order |
| JsonItems.DocumentSafe | src/org/ampii/xd/marshallers/JSONGenerator.java:36-118 | every text in the document of a legal item is one that reads back |
| JsonItems.GenerateThenParse | src/org/ampii/xd/marshallers/JSONGenerator.java:36-235 | parsing the generated text of a legal item gives its image, for every indentation and whichever form each leaf takes |
| JsonItems.BaseComesBack | src/org/ampii/xd/marshallers/JSONGenerator.java:107-115 | the base of a child comes back if bases are asked for, and in any case if nothing else says what it is |
| JsonItems.SameTreeBack | src/org/ampii/xd/marshallers/JSONParser.java:36-145 | with enough depth, the same tree of names, values, metadata and children comes back; and the base of every item but plain metadata with it, if bases are asked for |
| Filters.FilterContext.DoFilterExpression | src/org/ampii/xd/data/Context.java:433-444 | value, problem and index reached are those of the expression starting at the index, for every token list |
| Filters.FilterContext.DoBoolExp | src/org/ampii/xd/data/Context.java:446-478 | likewise for one operand, negation, comparison or parenthesis, with "not" as an operand where only an operand can stand |
| Filters.FilterContext.DoParen | src/org/ampii/xd/data/Context.java:480-484 | likewise for a parenthesis already opened |
| Filters.FilterContext.DoCompOp | src/org/ampii/xd/data/Context.java:487-510 | likewise for a comparison, null when the left side is missing or is no number |
| Filters.FilterContext.DoAnd | src/org/ampii/xd/data/Context.java:512-521 | null only if both sides are null, false if one is, else the conjunction |
| Filters.FilterContext.DoOr | src/org/ampii/xd/data/Context.java:523-532 | null never survives an or: the other side counts |
| Filters.FilterContext.CheckFilterExpression | src/org/ampii/xd/data/Context.java:428-431 | the check evaluates the expression on the stand-in from the current index |
| Filters.FilterContext.IsFiltered | src/org/ampii/xd/data/Context.java:411-419 | the verdict on a candidate, or the problem that sneaks through, from the first token; true below the first level or without a filter |
| FilterMeaning.EvaluatesTheExpression | src/org/ampii/xd/data/Context.java:433-532 | evaluating tokens agrees with first reading them into an expression, without any candidate, and then evaluating that |
| FilterMeaning.AcceptedOnceRunsEverywhere | src/org/ampii/xd/data/Context.java:428-431 | tokens accepted on one stand-in reach the same index on every candidate, or stop at a comparison with a non-number or a throwing accessor |
| FilterMeaning.PrecheckIsExact | src/org/ampii/xd/data/Context.java:411-431 | an accepted filter runs on every candidate with working accessors if and only if all right sides of gt, ge, lt and le are numbers |
| FilterMeaning.SneaksThrough | src/org/ampii/xd/data/Context.java:411-431 | an accepted filter and a candidate on which it throws |
| FilterMeaning.ValueIsMeaning | src/org/ampii/xd/data/Context.java:433-532 | three-valued evaluation collapses to ordinary logic in which a literal about something missing is false, and so is its negation |
| FilterMeaning.ComparisonOfNumbers | src/org/ampii/xd/data/Context.java:466-507 | evaluating "name gt number" and the like from the tokens gives the comparison of the two numbers, infinities at the ends and a NaN comparing with nothing; "eq" and "ne" compare the texts |
| FilterMeaning.NotAsName | src/org/ampii/xd/data/Context.java:453-458 | "not" names an operand if an operator, a comparison or a right parenthesis comes next, and negates what comes next otherwise; at the end it is an error |
| FilterMeaning.ExprIsRead | src/org/ampii/xd/data/Context.java:433-532 | the tokens of any expression are read back as that expression, "and" before "or" |
| FilterMeaning.ExprIsWritten | src/org/ampii/xd/data/Context.java:433-532 | any accepted tokens are the writing of an expression up to the index reached |
| FilterMeaning.AcceptedMeansExpression | src/org/ampii/xd/data/Context.java:428-532 | whatever tokens are accepted, the verdict is the meaning of the expression they spell, up to an unmatched right parenthesis |
| FilterMeaning.WrittenMeansMeaning | src/org/ampii/xd/data/Context.java:433-532 | writing any expression as tokens and evaluating them gives its Boolean meaning |
| FilterText.Context.GetToken | src/org/ampii/xd/data/Context.java:675-681 | returns one word or one parenthesis and leaves the text after it |
| FilterText.Context.ParseFilterString | src/org/ampii/xd/data/Context.java:683-721 | the loop cuts the text into tokens, joining a function call into one |
| FilterSpelling.RenderedIsCut | src/org/ampii/xd/data/Context.java:683-721 | any legal spelling, with any blanks, encodings and function calls, is cut into the tokens it spells |
| FilterSpelling.TokenIsText | src/org/ampii/xd/data/Context.java:704-712 | the token of a function call is the call as written, whatever blanks are inside it |
| FilterSpelling.CallIsCut | src/org/ampii/xd/data/Context.java:683-721 | a filter that is a call, with blanks around and inside it, is cut into the single token name, "(", arguments, ")" |
| FilterSpelling.CallWithoutArguments | src/org/ampii/xd/data/Context.java:704-712 | after any tokens, in front of any text, a call without arguments is refused if and only if the token after it is not a right parenthesis; otherwise that parenthesis is consumed and the call gets ")" for its arguments |
| FilterSpelling.NextIsClose | src/org/ampii/xd/data/Context.java:675-681 | that token is a right parenthesis if and only if the next character that is not a blank is one |
| FilterSpelling.EmptyArgumentsSwallow | src/org/ampii/xd/data/Context.java:683-721 | so "name()" is refused, and "(name())" is cut into a parenthesis and a call that has swallowed the closing one |
| FilterSpelling.FilterMeansExpression | src/org/ampii/xd/data/Context.java:433-721 | end to end: printing any expression, cutting the text and evaluating the tokens gives its Boolean meaning |
| Paging.Context.MakeSimpleNextPointer | src/org/ampii/xd/client/Client.java:31-44 | the next pointer is the parameters with a new window, or an error when max-results was absent |
| Paging.Context.FilterChildren | src/org/ampii/xd/data/Context.java:268-299 | the page is the included candidates from skip on, at most max of them, with next and partial as stated; everything visible for anything but the target |
| Paging.NotPartialIsComplete | src/org/ampii/xd/data/Context.java:274-283 | a page not marked partial shows every visible candidate |
| Paging.RequestIsRead | src/org/ampii/xd/data/Context.java:600-622 | skip and max-results as a client writes them are read as they are, if skip is at least -1 and max-results not negative, and refused otherwise |
| Paging.PageIsWindow | src/org/ampii/xd/data/Context.java:268-299 | a request that names both gets the included candidates from that position on, at most that many |
| Paging.PageOfAll | src/org/ampii/xd/data/Context.java:268-299 | a request that names neither gets all of them, or is refused if there are as many as the largest int |
| Paging.PartialIsExact | src/org/ampii/xd/data/Context.java:268-299 | a page is marked partial if and only if it has a next pointer or lacks a visible candidate; it has a next pointer if and only if it holds as many as were asked for, or none were asked for and there is one to show |
| Paging.NextPointerReadsBack | src/org/ampii/xd/data/Context.java:600-622 | reading the next pointer back gives the window after this one and keeps all other parameters |
| Paging.NextSkipIsExact | src/org/ampii/xd/client/Client.java:36-38 | a next pointer that is made never overflows |
| Paging.PagesPartition | src/org/ampii/xd/data/Context.java:268-299 | with a skip that is not negative, following next terminates and the pages concatenate to the included candidates from the first window on, once each; without a page size, on one page unless that is full |
| Paging.PartitionIsExact | src/org/ampii/xd/data/Context.java:600-622 | for every request, the pages are that partition if and only if there is a single page, or max-results is given and skip is not negative; a request without max-results is a single page unless skip is at most 0 and there are as many included candidates as the largest int |
| PrototypeMaking.Store.GetPrototypeFor | src/org/ampii/xd/definitions/Prototypes.java:38-40 | answer and new cache are those of the recursion from depth 0, and the cache stays in agreement and closed |
| PrototypeMaking.Store.FindPrototypeFor | src/org/ampii/xd/definitions/Prototypes.java:42-45 | the same prototype, or none where the request throws |
| PrototypeMaking.Store.GetPrototypeForRecurse | src/org/ampii/xd/definitions/Prototypes.java:55-100 | likewise at any depth; the counter is restored on normal return and never passes the limit by more than one; terminates for every set of definitions |
| PrototypeMaking.Store.MakePrototypeFromDefinition | src/org/ampii/xd/definitions/Prototypes.java:102-249 | the prototype of one definition, with every sub-prototype made or found on the way |
| PrototypeMaking.Store.AddMetadata | src/org/ampii/xd/definitions/Prototypes.java:126-215 | the loop over the given metadata |
| PrototypeMaking.Store.AddChildren | src/org/ampii/xd/definitions/Prototypes.java:217-240 | the loop over the given children |
| PrototypeMaking.MakeInstanceOfRecurse | src/org/ampii/xd/definitions/Instances.java:61-90 | succeeds exactly if the prototype is no higher than the limit allows, gives the instance, and restores the counter |
| PrototypeCache.TypeFuel | src/org/ampii/xd/definitions/Prototypes.java:55-104 | the flattening of a name does not depend on how much recursion is allowed once it is enough |
| PrototypeCache.GetIsFlat | src/org/ampii/xd/definitions/Prototypes.java:79-99 | cached or not, an answer that is not "too deep" is the uncached flattening, and so is everything cached meanwhile |
| PrototypeCache.GetCloses | src/org/ampii/xd/definitions/Prototypes.java:79-99 | the cache holds everything that the definitions of its prototypes refer to |
| PrototypeCache.ReferencesAreFlat | src/org/ampii/xd/definitions/Prototypes.java:106-117 | whatever a flattened definition refers to, itself or in a part, has a flattening |
| PrototypeCache.CirclesAreNotFlat | src/org/ampii/xd/definitions/Prototypes.java:55-104 | a name that leads into a circle of definitions has no flattening |
| PrototypeCache.CirclesAreRefused | src/org/ampii/xd/definitions/Prototypes.java:55-104 | such a name is never cached, and asking for it always ends in an exception |
| PrototypeCache.NeedTypeFuel | src/org/ampii/xd/definitions/Prototypes.java:55-104 | the levels a request needs, given which names are cached, do not depend on how much recursion is allowed to count them once it is enough |
| PrototypeCache.GetFits | src/org/ampii/xd/definitions/Prototypes.java:56 | a request is never "too deep" if depth and levels needed are within the limit, and never succeeds if they are not |
| PrototypeCache.GetGivesFlattening | src/org/ampii/xd/definitions/Prototypes.java:38-100 | for a name with a flattening the answer is that flattening if and only if the depth and the levels needed, given the names cached, are within the limit, and "too deep" otherwise; the names then cached are the ones counted |
| PrototypeCache.EveryRunAgrees | src/org/ampii/xd/definitions/Prototypes.java:38-100 | after any run of requests every cached prototype is the flattening of its name and the cache is closed |
| PrototypeContents.PrototypeHas | src/org/ampii/xd/definitions/Prototypes.java:106-249 | what a prototype holds: the inherited children unless replaced or displaced, the given metadata, the given children, in that order; the given value or the inherited one; and when it stops being optional |
| PrototypeContents.PrototypeIsMade | src/org/ampii/xd/definitions/Prototypes.java:102-249 | a definition has a prototype if and only if what it extends has an instance, and every given piece of metadata and every child its base lets it give can be made into a prototype, member definitions naming their member "1" |
| PrototypeContents.WhatIsExtended | src/org/ampii/xd/definitions/Prototypes.java:106-117 | a definition starts from an instance of what its $extends names, else its $type, else its $overlays, and that becomes its prototype |
| PrototypeContents.NothingIsExtended | src/org/ampii/xd/definitions/Prototypes.java:118-121 | a definition with none of the three starts from nothing, as its base |
| PrototypeShape.FlatTypeIsTidy | src/org/ampii/xd/definitions/Prototypes.java:102-249 | siblings in any prototype have distinct names, at every level |
| PrototypeShape.OptionalIsLeftOut | src/org/ampii/xd/definitions/Instances.java:82 | an item is optional exactly if the first in the line of itself, its prototype, that one's prototype and so on to have a value for $optional has "true" there |
| PrototypeShape.CopiesAreExact | src/org/ampii/xd/definitions/Instances.java:81-86 | an instance has instances of exactly the children that are not left out so, in order |
| PrototypeShape.InstanceHasTheRest | src/org/ampii/xd/definitions/Instances.java:81-86 | there are positions, in ascending order, of exactly the items that are neither metadata nor left out, and the instance holds instances of these and nothing else |
| PrototypeShape.OptionalChildren | src/org/ampii/xd/definitions/Instances.java:81-86 | of four children, the one with "true", the one whose prototype has it, the one that overrides that with "false", and the one without, the last two are in the instance |
| PrototypeShape.InstanceIsAsDeep | src/org/ampii/xd/definitions/Instances.java:62 | an instance is made if and only if it has no more levels than the limit, and is refused as too deep otherwise |
| PrototypeShape.InstanceOfPrototype | src/org/ampii/xd/definitions/Instances.java:61-90 | any instance of any prototype: base, value and non-optional children of the prototype, and none of its metadata |
| PrototypeShape.MetadataComesOnce | src/org/ampii/xd/definitions/Prototypes.java:203-213 | given metadata is never present already when a definition has distinct names |
| PrototypeShape.HistoryMatters | src/org/ampii/xd/definitions/Prototypes.java:55-104 | at every limit: the top of a stack of n definitions succeeds at once if and only if 2n levels are allowed, and after the one below it was asked for if and only if 2n - 2 are; it is too deep otherwise |
| Locking.StepKeepsInv | src/org/ampii/xd/database/Session.java:161-224 | every guarded step of every thread keeps the invariant of permit, active session and threads |
| Locking.OneWriterAtATime | src/org/ampii/xd/database/Session.java:171-215 | after any guarded interleaving at most one top-level write session is open, and at most one thread is opening or closing one |
| Locking.PermitIsExact | src/org/ampii/xd/database/DataStore.java:59-60 | after any guarded interleaving the permit is there exactly when no thread is between acquire and release |
| Locking.LockComesBack | src/org/ampii/xd/database/Session.java:171-215 | from wherever a guarded interleaving has come to, at most four more steps of one thread bring the permit back |
| Locking.LateCloseDoesNothing | src/org/ampii/xd/database/Session.java:171-174 | closing a closed session, a read session or a subsession changes nothing |
| Locking.SubsessionsDoNotNest | src/org/ampii/xd/database/Session.java:217-224 | under anything but the open session no write subsession is made |
| Locking.SubsessionsAreMade | src/org/ampii/xd/database/Session.java:217-224 | under the open session a write subsession is made, and the open session and the permit stay as they were |
| Locking.GuardIsExact | src/org/ampii/xd/database/Session.java:171-176 | in every state reached so far, one more step keeps the invariant if and only if it is guarded: it does not start closing a session that another thread is past the test for; otherwise four steps of the two threads lead to two permits |
| Locking.OwnedRunsAreAllowed | src/org/ampii/xd/database/Session.java:171-215 | runs in which each session is closed only by the thread that made it are guarded |
| Locking.OneHolderAtATime | src/org/ampii/xd/database/Session.java:171-215 | after any such run at most one thread holds the permit, from acquire to release |
| Sessions.Database.TryAcquire | src/org/ampii/xd/database/DataStore.java:59 | takes a permit exactly if there is one |
| Sessions.Database.MakeWriteSession | src/org/ampii/xd/database/Session.java:196-215 | succeeds exactly if the permit is there, and then holds it and is the active session |
| Sessions.Database.AtomicPut | src/org/ampii/xd/database/Session.java:245-253 | stores the result or nothing, and leaves the lock as it was, whatever fails |
| Sessions.Session.Close | src/org/ampii/xd/database/Session.java:171-176 | releases the lock for the active session and for no other |
| Sessions.Session.Commit | src/org/ampii/xd/database/Session.java:161-164 | stores the data of the session and closes a write session |
| Sessions.Session.Discard | src/org/ampii/xd/database/Session.java:166-169 | closes a write session, harmlessly if it was closed before |
| Sessions.Session.MakeWriteSubsession | src/org/ampii/xd/database/Session.java:217-224 | succeeds exactly under the active write session, and leaves the lock alone |
| MultiWrite.WriteEach | src/org/ampii/xd/managers/MultiManager.java:139-163 | the store is the in-order result of the entries that succeed, the failures are exactly the others in order, and the lock is still held |
| MultiWrite.PrePost | src/org/ampii/xd/managers/MultiManager.java:107-169 | which requests are refused, read or written, and that nothing is stored unless written |
| MultiWrite.OnlySuccessesCount | src/org/ampii/xd/managers/MultiManager.java:139-163 | the stored data is what the successful entries alone store, and they all succeed |
| MultiWrite.EntryIsWritten | src/org/ampii/xd/managers/MultiManager.java:147-156 | after any entries, one whose $via names a path adds the error that writing it there, in the data as stored so far, ends in; what is stored is what that write leaves, if it throws nothing, and unchanged otherwise |
| MultiWrite.EntryWithoutPath | src/org/ampii/xd/managers/MultiManager.java:149-150 | one whose $via is missing, has no value or is empty adds error 10, and what is stored is unchanged |
| MultiWrite.FailuresAreNamed | src/org/ampii/xd/managers/MultiManager.java:157-161 | what is reported is "values/" and the name of each entry that failed, and nothing else |
| MultiWrite.EachIsTriedOnce | src/org/ampii/xd/managers/MultiManager.java:139-163 | each entry is tried on what the entries before it stored, and is then either among those reported or among those kept, once |
| MultiWrite.FailureIsInvisible | src/org/ampii/xd/managers/MultiManager.java:139-163 | a failing entry can be left out without any other entry noticing |
| Addressing.Eval | src/org/ampii/xd/resolver/Eval.java:32-95 | the loop over the segments reaches the place, or throws the exception, that the path stands for |
| Addressing.EvalSegment | src/org/ampii/xd/resolver/Eval.java:45-91 | one segment: empty and dotted ones, aliases, fabricated items, children, functions, and the two kinds of not found |
| Addressing.Evaluated | src/org/ampii/xd/resolver/Eval.java:32-95 | whatever is reached is a place of the same tree |
| Addressing.ReadIsAsked | src/org/ampii/xd/resolver/Eval.java:93 | what a GET leads to if everything may be read is refused as not readable if that item may not be read; nothing else depends on what may be read, and no other mode does at all |
| Addressing.VisibilityIsAsked | src/org/ampii/xd/resolver/Eval.java:45-62 | where a path leads if everything is visible it leads, unless a name on the way, stored or an alias, leads to something not visible; then it is refused as not visible |
| Addressing.NameLeads | src/org/ampii/xd/resolver/Eval.java:50-91 | an alias comes before anything else, then for a GET what is fabricated, then the first stored item of the name, then functions; otherwise the name is not found, as metadata if it starts with a dollar sign, else as data |
| Addressing.GetRootFor | src/org/ampii/xd/resolver/Eval.java:99-103 | the loop up the parents ends at the root |
| Addressing.EvaluationComposes | src/org/ampii/xd/resolver/Eval.java:32-95 | with a prefix of at most one segment, evaluating p/q is evaluating p and then q from there |
| Addressing.UpAndBack | src/org/ampii/xd/resolver/Eval.java:45-48 | ".." leads to the parent, from where the name leads back, and "..." leads to the root |
| Addressing.ToRelativePath | src/org/ampii/xd/resolver/Path.java:30-45 | the loop builds the path of an item relative to a base |
| Addressing.UpwardIsJoin | src/org/ampii/xd/resolver/Path.java:32-44 | that path is the names below an ancestor base, or the prefix and all names |
| Addressing.PathIs | src/org/ampii/xd/resolver/Path.java:23-45 | what every path looks like: names from the base down, the prefix and all names, a dot for the base itself, and the prefix or "/." for the root |
| Addressing.PathLeadsBack | src/org/ampii/xd/resolver/Path.java:23-26 | the path of an addressable item evaluates to it from anywhere |
| Addressing.RelativePathLeadsBack | src/org/ampii/xd/resolver/Path.java:30-45 | the path relative to any base evaluates from there to the item: below, above, beside, or the same |
| Tagging.TaggedFunction.Search | src/org/ampii/xd/functions/TaggedFunction.java:33-59 | adds the paths of the matching items below, in document order and within the levels, and restores the parents |
| Tagging.TaggedFunction.Invoke | src/org/ampii/xd/functions/TaggedFunction.java:18-30 | the results are the paths of the matching items below the target |
| Tagging.TaggedFunction.BuildPath | src/org/ampii/xd/functions/TaggedFunction.java:45-49 | the path of an item relative to the target |
| Tagging.PreorderIsExact | src/org/ampii/xd/functions/TaggedFunction.java:33-59 | the search visits exactly the items below by children, within the levels |
| Tagging.PreorderIsSorted | src/org/ampii/xd/functions/TaggedFunction.java:33-59 | and in document order, so each once |
| Tagging.TaggedVisits | src/org/ampii/xd/functions/TaggedFunction.java:18-30 | for every depth, the items visited are, in document order, the descendants at level 1 to max(1, depth), all for -1, and down to level 2147483648 for the smallest int |
| Tagging.LimitIsKept | src/org/ampii/xd/functions/TaggedFunction.java:52 | nothing deeper than max(1, depth) is visited, if and only if the depth is not the smallest int or the target has no grandchildren |
| Tagging.TaggedIsExact | src/org/ampii/xd/functions/TaggedFunction.java:18-59 | the results are, in document order, the paths of exactly the descendants in reach that carry all the tags, and each path evaluates from the target to its item if that item is addressable |
| XmlText.EscapeText | src/org/ampii/xd/marshallers/XMLGenerator.java:344-355 | the escaping loop writes each character or its entity, in order |
| XmlText.UnescapeText | src/org/ampii/xd/marshallers/XMLParser.java:352-373 | the unescaping loop replaces the five entities and complains of any other |
| XmlText.UnescapeEscape | src/org/ampii/xd/marshallers/XMLGenerator.java:344-355 | unescaping what was escaped gives it back, for every text |
| XmlText.XmlParser.ConsumeAttributeName | src/org/ampii/xd/marshallers/XMLParser.java:261-267 | the name up to the next delimiter, or a complaint if it is empty |
| XmlText.XmlParser.ConsumeAttributeValue | src/org/ampii/xd/marshallers/XMLParser.java:269-275 | the unescaped value after the equals sign, in either kind of quotes, and what is left |
| XmlText.XmlParser.SkipRestOfComment | src/org/ampii/xd/marshallers/XMLParser.java:291-304 | the state machine stops after the end of a comment, or complains at the end of input |
| XmlText.AttributeReadsBack | src/org/ampii/xd/marshallers/XMLGenerator.java:299-301 | an emitted attribute reads back as its name and value, and what follows is untouched |
| XmlText.AttributeIsExact | src/org/ampii/xd/marshallers/XMLGenerator.java:299-301 | the value reads back if and only if it holds no NUL |
| XmlText.CommentIsSkipped | src/org/ampii/xd/marshallers/XMLParser.java:291-304 | every comment of section 2.5 of XML 1.0 is skipped to exactly its end |
| XmlText.CommentEndIsExact | src/org/ampii/xd/marshallers/XMLParser.java:291-304 | for any body without NUL and "-->" inside, the comment ends there if and only if the number of hyphens the body ends in is divisible by three; otherwise the scan reads on as from the start of a comment |
| XmlText.ThirdHyphenIsMissed | src/org/ampii/xd/marshallers/XMLParser.java:291-304 | so with one hyphen too many the end is missed |

## Left out

- JsonItems.GenerateThenParse: names and values ending in a backslash, unquoted values with delimiters, names with `$$` and names the parser reserves do not read back in the original either, so items are required to be without them; so are numbered containers whose members are out of sequence, which the parser renames.
- JsonItems.SameTreeBack: bases and types come back only when the request asks for them, so the tree is one of names, values, metadata and children.
- JsonParsing.JsonParser.ConsumeValue: `$$definitions`, `$$tagDefinitions`, `$$includes`, `$$order` and localized values are reported as not modelled; the options for single quotes and unquoted names are off.
- JsonParsing.JsonParser.ConsumeObject: likewise, for the members it consumes.
- JsonParsing.JsonParser.ParseText: likewise, for documents that hold any of these.
- JsonParsing.JsonParser.ConsumeArray: arrays of more elements than the largest int are numbered on without wrap-around.
- JsonGenerating.JsonGenerator.EmitObject: `$self`, inherited metadata and the definitions section, which depend on the request, and localized values are not written.
- JsonGenerating.JsonGenerator.EmitValue: localized values are not written.
- JsonGenerating.JsonGenerator.EmitSubValue: localized values are not written.
- JsonGenerating.JsonGenerator.EmitMetadata: the definitions sections are not written.
- ChildNames.GetNextAvailableChildName: digits outside ASCII, which `Integer.parseInt` also accepts, are not numerals here.
- Filters.FilterContext.DoBoolExp: the left side is looked up by a parameter instead of by path evaluation, which Addressing models for stored data only.
- FilterMeaning.WrittenMeansMeaning: an operand that is itself a parenthesis or "not", or an operator word right after "not", is read as something else in the original too, so expressions are required to be without them; accessors of the candidate are taken not to throw.
- FilterSpelling.FilterMeansExpression: URL decoding is a parameter that need only undo the spellings used; an unmatched right parenthesis ends a filter, so the meaning of accepted tokens is stated up to the index reached.
- Paging.PagesPartition: lists longer than the largest int are not considered.
- Paging.Context.FilterChildren: a filter that throws, and the texts of the URI around the parameters, are not modelled; neither are skip and max-results for `$descendants`, strings and octet strings.
- PrototypeMaking.Store.AddMetadata: merging of `$namedBits`, `$namedValues` and `$choices` is reported as not modelled, and so are type names with slashes; values are copied without conversion.
- PrototypeMaking.Store.GetPrototypeForRecurse: type names with slashes are reported as not modelled instead of being resolved as paths.
- PrototypeMaking.Store.MakePrototypeFromDefinition: definitions that merge `$namedBits`, `$namedValues` or `$choices` are reported as not modelled.
- PrototypeMaking.MakeInstanceOfRecurse: builtins are taken to have no `$type` of their own.
- PrototypeShape.InstanceOfPrototype: whether an item is optional is decided by its own `$optional` or that of its prototypes; an `$optional` that is itself optional is not considered, and builtins are taken to have no children.
- PrototypeCache.GetGivesFlattening: removing a definition with its prototype is not modelled; the definitions are fixed.
- Locking.OneWriterAtATime: memory visibility is not modelled; the static field is read and written atomically. Time-outs are steps that change nothing.
- MultiWrite.WriteEach: the data model of a shadow is a copy that replaces the original on commit; bindings that handle a commit themselves, and a commit that fails half way, are not modelled.
- MultiWrite.PrePost: what reading through /.multi returns is not modelled; only that the request is one to read.
- Addressing.Eval: creating items for PUT and POST, and what functions and the fabricator return, are not modelled; evaluation ends as "outside the tree" when it meets one.
- Addressing.EvalSegment: likewise, for a segment that stands for such an item.
- Addressing.ToRelativePath: the marking of fabricated parents in printed paths is not modelled.
- Addressing.PathLeadsBack: names with slashes, dotted or reserved names and repeated sibling names do not lead back, so items on the way are required to be without them; the prefix is empty or starts with a slash.
- Tagging.TaggedFunction.Invoke: parsing the arguments and counting children kept elsewhere by a binding are not modelled.
- XmlText.XmlParser.ConsumeAttributeValue: elements, extensions and the header of XML documents are not modelled.
- HTTP, TLS, files, logging, callbacks, OAuth and the user interface are not modelled.
- Base type classes, authorization, hooks and the policy classes are parameters or absent.
