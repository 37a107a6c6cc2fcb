# Verified models of QGpgME's algorithms

QGpgME is the Qt binding of gpgme. Most of it forwards calls, but some parts are algorithms of
their own. This project models those parts in Dafny and proves what they promise, or, where they
do not keep a promise in general, exactly when they do.

| files | what they model |
|---|---|
| `Text.dfy`, `Split.dfy`, `Alphabets.dfy` | trimming, searching, joining and splitting of strings; the splitter of `src/util.h`; letters, digits and blanks spelled out |
| `DnGrammar.dfy`, `DnParser.dfy`, `DnSpelling.dfy` | the RFC 2253 parser, its scanners, and the grammar of the three value forms that it is proved to accept exactly (sections 2.4 and 3 of RFC 2253) |
| `DnWholeName.dfy` | exactly which texts the parser accepts as a whole name, and what they mean |
| `DnCharacters.dfy` | the separators, special characters, object identifiers and default order of the parser and the printer, spelled out |
| `DnPrinter.dfy`, `DnRoundTrip.dfy` | the printer of distinguished names, and exactly which attribute lists survive printing and parsing |
| `DnReorder.dfy`, `DnOrders.dfy` | reordering attributes for display, and when two orders show a name in the same way |
| `DnHandle.dfy`, `DnSession.dfy` | the reference-counted copy-on-write handle with its cached list, and whole runs over any number of handles on the heap |
| `DnMachine.dfy`, `DnOrderRuns.dfy`, `DnPrintedRuns.dfy`, `DnStaleOrder.dfy` | the machine that such runs refine: sharing is invisible in the attributes; exactly when it is in the orders, when everything printed is right, and runs in which they are not |
| `KeyMerge.dfy` | merging the public and the secret key list in place |
| `CommandPacking.dfy`, `RefreshJob.dfy` | packing patterns onto the command lines of a chain of gpgsm processes, and the job that runs the chain |
| `KeyListing.dfy` | listing keys in chunks whose size is halved when the backend refuses one |
| `LdapServer.dfy` | the text form of LDAP servers in the configuration |
| `AdQuery.dfy` | reading attribute lines whose values are folded |
| `ByteArrayProvider.dfy`, `FileList.dfy` | the data provider over a byte array as a file, and the list of file names served by it |
| `KeyForMailbox.dfy` | choosing the key for a mail address |
| `RandomName.dfy` | random characters for temporary file names |
| `MultiDelete.dfy` | deleting several keys, one job after the other |

`dafny verify dfyconfig.toml` checks the whole project.

Loops and objects that the program updates in place are methods, loops and classes here; each such
method is proved against a function of its inputs or of the old state, and the lemmas are about
those functions. Backends, the event loop and the start of processes appear as arbitrary functions
or as arbitrary series of events. Whether a cancel error tests true as a condition is left open
(`cancelTests`), because the program treats that case separately in one place
(`src/qgpgmechangeexpiryjob.cpp:103`) and not in others.

Where a general promise does not hold, these are the conditions that are proved to be exact:

- A list of attributes is read back from what is printed for it if and only if no name or value is
  empty or has blanks around it, no name or value contains `=`, no value contains `#`, and the name
  table rewrites no name (`DnRoundTrip.RoundTrip`). The printer does not escape `=` and `#`, at
  which the parser stops.
- A value written as hexadecimal pairs is read back if and only if it does not end in a space; a
  value can be written between quotes if and only if its backslashes can be paired with characters
  other than a quote (`DnSpelling`).
- Setting the order of a name keeps its cached list right if and only if nothing is cached, or both
  orders lay out the names alike (`DnHandle.DN.SetAttributeOrder`, `DnOrders.SameLayoutExact`); for
  orders without duplicates that is, if they show the same attributes and place any two of them alike
  (`DnOrders.SameListExact`). In a whole run no variable ever sees a wrong cache if and only if
  every order is set so (`DnMachine.CachesRightExact`).
- Everything printed in a run goes by the uncached list if and only if at each print nothing is
  cached, or the order agrees with the one under which the cache was filled, whatever orders
  were set in between (`DnPrintedRuns.PrintsExact`); for attributes whose text can be read back
  this is exact for the texts themselves (`DnPrintedRuns.LogExact`). Otherwise a stored order is not
  followed (`DnStaleOrder.StaleRun`).
- Sharing is invisible in the attributes (`DnMachine.SharingIsInvisible`). In the orders it is
  visible in two ways: an order set through one variable is that of all on the same object, and an
  append through a variable that shares its object gives it the default order. At every point of a
  run each variable has an order of its own if and only if orders are set and attributes appended only
  through variables alone on their object, or where the order set, or the default, is there already
  (`DnOrderRuns.OrdersExact`; runs that fail: `DnStaleOrder.OrderOfAnother`, `DnStaleOrder.CopyResetsOrder`).
- Reordering loses or doubles nothing if and only if the order accounts for every attribute exactly
  once (`DnReorder.PermutationExact`); an attribute that is itself named `_X_` is always lost.
- The chain of refresh processes comes to an end if and only if every pattern fits a fresh command
  line (`RefreshJob.EndsExact`); a process without any pattern, which works on all keys, is started
  if and only if blank patterns are left over behind an exactly full command line
  (`CommandPacking.ExtraProcessExact`).
- After a cancel no further process is started, whatever happens, if and only if none was running,
  the cancel error tests true, or nothing was left to do (`RefreshJob.CancelStopsExact`).
- The chunked listing succeeds for all patterns, with their keys, if and only if all chunks of the
  first size whose first chunk is not refused are taken, for every backend (`KeyListing.CompleteForAny`)
  and in terms of the patterns for one that goes by the chunk alone (`KeyListing.CompleteExact`);
  otherwise patterns that were already listed are lost, even with a successful result, which then
  holds the keys for an end of the list (`KeyListing.KeysOfListed`, `KeyListing.ShortPatternsAreLost`).
- An LDAP server is read back from its text if and only if the host is not `ldap`; behind an explicit
  `ldap:` prefix, if and only if the host does not start with `//` (`LdapServer`).
- Folded attribute lines are read back if and only if names and values are free of the characters
  that structure the format (`AdQuery.FoldingIsInvisible`).
- The user ID chosen for a mail address is the best one if and only if that one is unusable, or no
  unusable one behind it has a higher validity (`KeyForMailbox.BestExact`); it is the best so far at
  every point of the search if and only if no unusable one with a higher validity than all usable
  ones before it turns up (`KeyForMailbox.BestThroughoutExact`). The comments at
  `src/qgpgmekeyformailboxjob.cpp:100-104` describe the intent, and the model follows the code.

## Model

| member | source | states |
|---|---|---|
| Split.Split | src/util.h:69-83 | cutting at the delimiter: the pieces joined again give the text, and none contains the delimiter |
| Text.PiecesOfJoin | src/util.h:69-83 | no other list of pieces does that: splitting undoes every join of delimiter-free pieces |
| Alphabets.CasesExact | src/qgpgmekeyformailboxjob.cpp:95 | upper- and lower-casing on ASCII: each letter becomes the one at its place in the other alphabet, and nothing else changes |
| Alphabets.HexDigitsExact | src/dn.cpp:140-149 | the sixteen digits in either case stand for their places, and there are no others |
| Alphabets.ByteExact | src/dn.cpp:151-154 | two digits write the byte with these halves, the higher first |
| Alphabets.TrimExact | src/dn.cpp:120-138 | trimming takes blanks off both ends, all of them and nothing else |
| Alphabets.BlanksExact | src/dn.cpp:427 | the characters that count as blanks |
| Alphabets.JoinOfConcat | src/dn.cpp:433-437 | joining puts one separator between neighbours, in order |
| DnGrammar.ScanPlainExact | src/dn.cpp:267-341 | the plain-value loop accepts exactly the sequences of raw characters, escaped characters and hexadecimal pairs up to a separator or the end, and reads each in one way |
| DnGrammar.PlainValueExact | src/dn.cpp:335-339 | no character of a plain value is lost if and only if it does not end in a space or the last space is escaped with a backslash |
| DnGrammar.ScanQuotedExact | src/dn.cpp:227-265 | the quoted-value loop accepts exactly the well-formed quoted texts, whatever follows the closing quote |
| DnGrammar.ParseHexString | src/dn.cpp:157-175 | a non-empty even run of hexadecimal digits gives the bytes they write, anything else nothing |
| DnParser.ScanQuotedValue | src/dn.cpp:227-265 | the loop that consumes the text and pushes onto the value computes the meaning of the scanned units, or fails where the scanner does |
| DnParser.ScanPlainValue | src/dn.cpp:266-340 | the same for plain values, with the flag for a last escaped space |
| DnParser.ParseDnPart | src/dn.cpp:193-342 | one attribute: name up to the first equals sign, mapped by the table, and a value in one of the three forms |
| DnParser.PartConsumes | src/dn.cpp:193-342 | every successful call leaves a proper suffix of its input, and the value is no longer than the text it was read from |
| DnParser.ParseString | src/dn.cpp:350-384 | for every input the loop ends with the attributes in order, or with none at all where any part is malformed |
| DnCharacters.SeparatorExact | src/dn.cpp:371-381 | two attributes with any character between them are both read if and only if it is a comma, a semicolon or a plus sign; else the parser gives up |
| DnCharacters.TwoQuotedExact | src/dn.cpp:350-384 | the same for the text as it stands, with quotes around values that need no escapes |
| DnCharacters.PlainCharacterExact | src/dn.cpp:314-333 | which seven characters end a plain value, which two are errors there, and that all others are part of it |
| DnCharacters.EscapedCharacterExact | src/dn.cpp:278-312 | the ten characters that a backslash alone makes part of a value |
| DnCharacters.PlainValueIsTrimmed | src/dn.cpp:335-339 | what is cut off a plain value are the spaces at its end, all of them, and none behind an escaped space |
| DnCharacters.AttributeNameExact | src/dn.cpp:177-188 | the names that are reported for ST and for the twelve object identifiers, with OID. in front or not; other names stay |
| DnParser.PairsAreComplete | src/dn.cpp:364-366 | whatever the input, only pairs with a non-empty name without equals sign and a non-empty value are returned |
| DnWholeName.ReadDnExact | src/dn.cpp:350-384 | a text reads as a list of pairs, without being given up on, if and only if it is written as blanks, attributes whose values are spelled in one of the three forms, and separators, and the pairs are the complete ones among them |
| DnSpelling.ReadValueExact | src/dn.cpp:209-341 | a text is read as a value if and only if it is one of the three spellings of that value followed by something that ends it |
| DnSpelling.ReadPartOfSpelling | src/dn.cpp:193-341 | any name, any blanks after the equals sign and any spelling are read as that name and value |
| DnSpelling.BackslashSpelling | src/dn.cpp:278-297 | every non-empty value with all special characters and spaces escaped reads back as itself |
| DnSpelling.HexSpelling | src/dn.cpp:214-226 | every non-empty value written as # and hexadecimal digits of either case reads back as itself |
| DnSpelling.QuotedSpelling | src/dn.cpp:227-265 | every quotable value written between quotes reads back as itself |
| DnSpelling.NoBackslashSpelling | src/dn.cpp:227-265 | every value without a backslash reads back from its quoted spelling |
| DnSpelling.QuotedSpellingExists | src/dn.cpp:237-247 | a value has a quoted spelling if and only if every backslash in it takes a following character other than a quote with it |
| DnSpelling.PairSpelling | src/dn.cpp:298-307 | a value written as hexadecimal pairs reads back as itself if and only if it does not end in a space |
| DnPrinter.ParseDn | src/dn.cpp:386-395 | the attribute list of a text: the parsed pairs with upper-cased names |
| DnPrinter.DnEscape | src/dn.cpp:398-418 | the loop puts a backslash before each of the seven characters it knows and changes nothing else |
| DnPrinter.ListAttributes | src/dn.cpp:420-431 | the loop gives one trimmed and escaped text for each attribute with a non-empty name and value, in order |
| DnCharacters.EscapedExact | src/dn.cpp:403-412 | the seven characters that get a backslash |
| DnCharacters.ItemExact | src/dn.cpp:425-427 | attributes without name or value are not printed; the text of any other |
| DnPrinter.ItemIsRead | src/dn.cpp:193-342 | one printed attribute that survives is read back whole, before any separator or the end |
| DnRoundTrip.RoundTrip | src/dn.cpp:350-437 | printing with a separator of the parser (and any spaces after it) and parsing again is the identity on a list if and only if each attribute survives |
| DnCharacters.RoundTripOfThree | src/dn.cpp:398-437 | surviving attributes are read back with a comma, a semicolon and a plus sign between them |
| DnRoundTrip.EqualsSignIsLost | src/dn.cpp:398-418 | no value with an equals sign is read back from what is printed for it, although the parser accepts it when escaped |
| DnReorder.ReorderDn | src/dn.cpp:439-468 | the three loops compute the groups in the order asked for, with the unknown attributes at the first place kept for them |
| DnReorder.GroupsAreKept | src/dn.cpp:439-468 | the attributes of each name appear in their old order, as many times over as the order names them; unknown ones once if there is a place for them, else never |
| DnReorder.UnknownAreKept | src/dn.cpp:447-458 | the unknown attributes keep their order among themselves, or all go |
| DnReorder.Multiplicity | src/dn.cpp:439-468 | each attribute comes out as often as it went in, times its appearances in the order |
| DnReorder.PermutationExact | src/dn.cpp:439-468 | the result is a permutation if and only if every attribute appears exactly once |
| DnReorder.IdempotentExact | src/dn.cpp:439-468 | reordering again changes nothing if and only if no attribute was doubled |
| DnReorder.ResultIsSorted | src/dn.cpp:453-465 | for an order without duplicates the result is sorted by the places in the order |
| DnCharacters.DefaultOrderExact | src/dn.cpp:83-89 | what the default order shows: CN, L, all attributes it does not name, OU, O, C |
| DnOrders.SameListExact | src/dn.cpp:439-468 | two orders without duplicates give the same list if and only if they show the same attributes and place any two of them alike |
| DnOrders.SameLayoutExact | src/dn.cpp:439-468 | any two orders, with duplicates too, give the same list if and only if they lay out the names alike; the values play no part |
| DnHandle.Private.Unref | src/dn.cpp:97-105 | one reference less; the object is freed exactly when none is left |
| DnHandle.NoDanglingHandle | src/dn.cpp:92-105 | in a sound heap every counter is the number of live handles on the object, and only objects without one are freed |
| DnHandle.DN.Copy | src/dn.cpp:498-504 | the copy shares the object, counts itself, and changes nothing that is seen |
| DnHandle.DN.Destroy | src/dn.cpp:506-511 | the object is freed if and only if this was its only handle; all other counters stay right |
| DnHandle.DN.Assign | src/dn.cpp:513-529 | the handle shares the other's object; the old one is freed if and only if this was its only handle; no attributes change, self-assignment included |
| DnHandle.DN.Detach | src/dn.cpp:570-581 | afterwards the handle is alone on its object, with the same attributes; a shared object is left unchanged, and the copy gets the default order |
| DnHandle.DN.Append | src/dn.cpp:583-588 | the attribute is added for this handle only, the cache is emptied, and no other handle sees a change |
| DnHandle.DN.PrettyDN | src/dn.cpp:531-540 | the text is that of the cached list, which is filled if it is empty; with a coherent cache it is that of an uncached reordering, and the cache stays coherent |
| DnHandle.DN.PrettyAttributes | src/dn.cpp:552-562 | the same for the list of attributes |
| DnHandle.DN.SetAttributeOrder | src/dn.cpp:616-619 | the cache stays coherent if and only if it was empty or both orders show the attributes alike |
| DnMachine.SharingIsInvisible | src/dn.cpp:476-588 | in every run of constructing, copying, assigning, appending, ordering, printing and destroying, the variables show the attributes they would show if each had its own list |
| DnMachine.FreedForGood | src/dn.cpp:92-105 | an object whose last variable has gone is never seen or touched again |
| DnMachine.CachesRightExact | src/dn.cpp:531-619 | in a run no variable ever sees a wrong cache if and only if every order is set over an empty cache or shows the attributes as the old one did |
| DnPrintedRuns.PrintsExact | src/dn.cpp:531-619 | in a run all that is printed goes by the uncached list if and only if at each print the cache is empty or the order agrees with the one it was filled under |
| DnPrintedRuns.LogExact | src/dn.cpp:531-619 | if each print is in time, all printed texts and lists are those of an uncached reordering; and only if, where the printed attributes can be read back |
| DnMachine.NothingStale | src/dn.cpp:531-619 | a rule that suffices for that: if orders are only set over empty caches, or all caches stay right, everything printed is that of an uncached reordering |
| DnOrderRuns.OrdersExact | src/dn.cpp:570-619 | at every point of a run each variable has an order of its own if and only if orders are set, and attributes appended, only through variables alone on their object or where that changes no order seen |
| DnStaleOrder.OrderOfAnother | src/dn.cpp:498-504 | a run in which the order set through one variable becomes that of another |
| DnStaleOrder.CopyResetsOrder | src/dn.cpp:570-588 | two runs that differ in a copy only: without it an appended attribute is shown by the order that was set, with it by the default |
| DnStaleOrder.StaleRun | src/dn.cpp:531-540 | a run, for any two attributes, in which the second order is stored and the text is still that of the first |
| DnStaleOrder.StaleExample | src/dn.cpp:531-540 | the run for two concrete attributes, and that its second text is not the uncached one |
| DnSession.Run | src/dn.cpp:476-619 | every run on the heap ends in the state of the machine and prints exactly what the machine prints; there are no handles but those of the variables, every counter is the number of variables on its object, and an object has been freed if and only if there is none |
| KeyMerge.UniqueByMerge | src/qgpgmelistallkeysjob.cpp:122-139 | in place, the first part of the array becomes the list in which every run of equal fingerprints is merged |
| KeyMerge.MergeRuns | src/qgpgmelistallkeysjob.cpp:130-138 | the two-cursor loop: what is behind the first cursor is never overwritten before it is read |
| KeyMerge.MergeKeys | src/qgpgmelistallkeysjob.cpp:141-152 | the merged list is the compressed stable merge of both lists |
| KeyMerge.MergedList | src/qgpgmelistallkeysjob.cpp:141-166 | from sorted lists it has strictly increasing fingerprints, and for each fingerprint of either list one key, the left fold over its public and then its secret keys |
| KeyMerge.PublicTakesSecret | src/qgpgmelistallkeysjob.cpp:122-152 | two keys with one fingerprint become the public one with the secret one merged into it; others stay, in order |
| KeyMerge.ListKeysLegacy | src/qgpgmelistallkeysjob.cpp:154-172 | both lists are sorted, in any way, and merged, or only the public one is taken |
| KeyMerge.MergedFromAny | src/qgpgmelistallkeysjob.cpp:154-172 | however the lists come and are sorted, fingerprints strictly increase, and each one of either list has one key, the left fold over its public and then its secret keys, each in some order |
| KeyMerge.SortDoesNotMatter | src/qgpgmelistallkeysjob.cpp:159-166 | where no list has a fingerprint twice, any two ways to sort give the same result |
| KeyMerge.GroupsDetermine | src/qgpgmelistallkeysjob.cpp:141-166 | these facts leave only one possible result |
| CommandPacking.TakePatterns | src/qgpgmerefreshsmimekeysjob.cpp:128-145 | the loop takes trimmed patterns while they fit, skips blank ones, and the unsigned room never falls below zero |
| CommandPacking.PackConserves | src/qgpgmerefreshsmimekeysjob.cpp:133-145 | one process takes the first non-blank patterns, trimmed and in order, within the room |
| CommandPacking.CommandLineFits | src/qgpgmerefreshsmimekeysjob.cpp:124-145 | no command line is longer than the maximum |
| CommandPacking.OnePatternExact | src/qgpgmerefreshsmimekeysjob.cpp:118-132 | the words that count against the 32768 characters, and the longest pattern that fits |
| CommandPacking.CleanedExact | src/qgpgmerefreshsmimekeysjob.cpp:134 | what is passed of a pattern: all but the blanks at both ends |
| CommandPacking.ChainConserves | src/qgpgmerefreshsmimekeysjob.cpp:112-145 | over the whole chain the arguments are the trimmed non-blank patterns in order, on command lines that are all short enough |
| CommandPacking.ChainEndsExact | src/qgpgmerefreshsmimekeysjob.cpp:133-139 | the list of patterns is used up after some number of processes if and only if each fits a fresh command line |
| CommandPacking.ChainIsOptimal | src/qgpgmerefreshsmimekeysjob.cpp:133-145 | no way of cutting the patterns, in order, into short enough command lines uses fewer processes |
| CommandPacking.ExtraProcessExact | src/qgpgmerefreshsmimekeysjob.cpp:133-142 | blank patterns change nothing but for one last process without patterns, started if and only if they are left over behind an exactly full command line |
| CommandPacking.BlankBehindFull | src/qgpgmerefreshsmimekeysjob.cpp:133-142 | a pattern that just fits and a blank one, for which a second process without patterns is started |
| RefreshJob.Job.Start | src/qgpgmerefreshsmimekeysjob.cpp:74-86 | an empty list becomes one blank pattern, and the first process is started |
| RefreshJob.Job.StartKeys | src/qgpgmerefreshsmimekeysjob.cpp:88-106 | no keys queue an exit, a key of another kind is an error, and else the fingerprints are the patterns |
| RefreshJob.Job.StartAProcess | src/qgpgmerefreshsmimekeysjob.cpp:112-166 | the next process with what it takes, or the error if it cannot be started |
| RefreshJob.Job.SlotProcessExited | src/qgpgmerefreshsmimekeysjob.cpp:238-255 | the next process if there is no error and something to do, else done and the result; also where no process was running |
| RefreshJob.Job.Run | src/qgpgmerefreshsmimekeysjob.cpp:168-255 | any series of exits and cancels acts as the transition function |
| RefreshJob.WholeRun | src/qgpgmerefreshsmimekeysjob.cpp:74-255 | with fitting patterns, no start error and no cancel the processes together get the trimmed non-blank patterns once and in order, on short enough command lines; no split uses fewer, but for the one process that left-over blanks cost; done and one result are signalled, decided by the last exit alone |
| RefreshJob.QuietBefore | src/qgpgmerefreshsmimekeysjob.cpp:240-246 | nothing is signalled before the last process has ended |
| RefreshJob.EndsExact | src/qgpgmerefreshsmimekeysjob.cpp:133-139 | the job ends if and only if every pattern fits a fresh command line |
| RefreshJob.CancelStopsExact | src/qgpgmerefreshsmimekeysjob.cpp:168-246 | after a cancel no process is started, in any run, if and only if none was running, the cancel error tests true, or nothing was left to do |
| RefreshJob.CancelIsReported | src/qgpgmerefreshsmimekeysjob.cpp:168-255 | from any cancel of a running job on, it runs without a signal or has signalled done and one result, which is never success, is the cancel if its error tests true, and else the start error, the failure, or the cancel |
| RefreshJob.NoKeysAtAll | src/qgpgmerefreshsmimekeysjob.cpp:88-95 | the exit queued for no keys signals done and success, with no process started |
| RefreshJob.SignalsAtMostOnce | src/qgpgmerefreshsmimekeysjob.cpp:248-254 | in every run at all, done and result come together, at most once, and after the last process |
| RefreshJob.EveryRunReports | src/qgpgmerefreshsmimekeysjob.cpp:160-255 | every run, with any events: while it runs nothing is signalled, and one exit has ended it with the report of a cancel, a start error, a failure or success, as the code says |
| RefreshJob.StartErrorIsReported | src/qgpgmerefreshsmimekeysjob.cpp:240-253 | a later process that cannot be started ends the job with that error |
| KeyListing.ListKeys | src/qgpgmekeylistjob.cpp:87-134 | for every backend, also one that changes its answers, the retry loop ends with the outcome of the specification |
| KeyListing.AnswersDecide | src/qgpgmekeylistjob.cpp:104-133 | over all calls and their answers: success and refusals go on, the last answer decides the code, so another error is returned as it is and an end gives an empty success; the keys are those of the last attempt, up to and with the last answer |
| KeyListing.CompleteForAny | src/qgpgmekeylistjob.cpp:104-133 | for every backend, success for all patterns, with exactly their keys, if and only if at the first size whose first chunk is not refused all chunks are taken; else an error or patterns missing |
| KeyListing.CompleteExact | src/qgpgmekeylistjob.cpp:104-133 | for a backend that goes by the chunk alone the same, in terms of the patterns |
| KeyListing.KeysOfListed | src/qgpgmekeylistjob.cpp:104-133 | for every backend, what a successful job returns are the keys for an end of the list, chunk after chunk |
| KeyListing.LimitIsFound | src/qgpgmekeylistjob.cpp:104-133 | a backend with a limit on the number of patterns lists all of them once and in order, with the first halved size within the limit, and their keys are returned |
| KeyListing.HalvedToExact | src/qgpgmekeylistjob.cpp:111-120 | that size is n divided by the least power of two that brings it within the limit, and at least half the limit or n |
| KeyListing.PairIsLost | src/qgpgmekeylistjob.cpp:105-131 | patterns listed before a refusal are lost, with a successful result that holds the keys of the second pair alone |
| KeyListing.ShortPatternsAreLost | src/qgpgmekeylistjob.cpp:95-131 | a concrete input for a backend with a limit on the line length, with the keys that come back |
| LdapServer.UrlPartEncode | src/qgpgmenewcryptoconfig.cpp:264-271 | the two replacements, one after the other, are one simultaneous substitution |
| LdapServer.DecodeEncoded | src/qgpgmenewcryptoconfig.cpp:264-276 | decoding undoes encoding, and an encoded part contains no colon |
| LdapServer.DecodedExact | src/qgpgmenewcryptoconfig.cpp:273-276 | any characters written as a percent sign and two digits are decoded |
| LdapServer.SplitUrl | src/qgpgmenewcryptoconfig.cpp:514-528 | the text is the six encoded fields joined with colons |
| LdapServer.ParseUrl | src/qgpgmenewcryptoconfig.cpp:454-505 | the URL filled step by step is the one read from the fields, or the text is left to the general parser; a port may have blanks and a sign, and is ignored where it is no number or out of range |
| LdapServer.RoundTripExact | src/qgpgmenewcryptoconfig.cpp:454-528 | a server with ASCII fields is read back from its text if and only if the host is not ldap |
| LdapServer.FiveFieldsExact | src/qgpgmenewcryptoconfig.cpp:456-497 | with ASCII fields a server without flags is read back from five fields if and only if the host is not ldap |
| LdapServer.ServerAsWritten | src/qgpgmenewcryptoconfig.cpp:456-490 | the five fields as they stand, in the documented order |
| LdapServer.TextExact | src/qgpgmenewcryptoconfig.cpp:514-528 | without characters to encode, the text is the six parts in the documented order |
| LdapServer.GeneralExact | src/qgpgmenewcryptoconfig.cpp:459-505 | the texts that are left to the general parser: LDAP URLs, and those with fewer than five fields |
| LdapServer.PortExact | src/qgpgmenewcryptoconfig.cpp:467-476 | the ports that are taken |
| LdapServer.PrefixedRoundTripExact | src/qgpgmenewcryptoconfig.cpp:459-462 | with ASCII fields, behind an explicit prefix it is read back if and only if the host does not start with two slashes |
| LdapServer.MoreFieldsAreIgnored | src/qgpgmenewcryptoconfig.cpp:458-497 | fields behind the sixth, such as the one behind a last colon, change nothing |
| AdQuery.ParseQueryResult | src/qgpgmeadqueryjob.cpp:168-195 | the loop over the lines adds attributes, continues the last value and skips the rest |
| AdQuery.LineExact | src/qgpgmeadqueryjob.cpp:184-192 | a line adds an attribute if and only if it is a name without a colon, a colon, a space and the value; other lines are skipped |
| AdQuery.OtherLinesExact | src/qgpgmeadqueryjob.cpp:175-183 | empty lines change nothing, and a line with a space in front extends the last value, if there is one |
| AdQuery.FoldingIsInvisible | src/qgpgmeadqueryjob.cpp:168-195 | attributes written with their values cut anywhere onto continuation lines are read back if and only if all are clean |
| AdQuery.FinalBreakIsIgnored | src/qgpgmeadqueryjob.cpp:174-176 | a last line break changes nothing |
| ByteArrayProvider.ResizeAndInit | src/dataprovider.cpp:49-58 | longer, and zero where it is new |
| ByteArrayProvider.Provider.Read | src/dataprovider.cpp:68-88 | as much as there is, up to the size asked for; the rest of the buffer and the data stay |
| ByteArrayProvider.Provider.Write | src/dataprovider.cpp:90-113 | exactly the bytes from the offset on change, with zeros in a gap before them |
| ByteArrayProvider.Provider.Seek | src/dataprovider.cpp:115-136 | the new offset, through the conversion to int |
| ByteArrayProvider.WrittenOnce | src/dataprovider.cpp:90-113 | what a write means leaves only one possible content |
| ByteArrayProvider.Run | src/dataprovider.cpp:49-136 | in every run of reads, writes and seeks the provider behaves as the file, and returns its data |
| ByteArrayProvider.ReadExact | src/dataprovider.cpp:80-87 | how much is read, and which bytes |
| ByteArrayProvider.SeekExact | src/dataprovider.cpp:115-136 | what is read after going to the start, back, or to the end less some bytes |
| ByteArrayProvider.WriteThenRead | src/dataprovider.cpp:68-136 | after seeking back, reading gives what was written |
| FileList.EncodeFilenames | src/filelistdataprovider.cpp:51-70 | the non-empty names with zero bytes between them |
| FileList.TwoNamesExact | src/filelistdataprovider.cpp:51-70 | an empty name leaves no trace, and two others have a zero byte between them |
| FileList.Provider.Read | src/filelistdataprovider.cpp:79-82 | reading is that of the byte array |
| FileList.ReadToEnd | src/filelistdataprovider.cpp:72-82 | read in any sizes, the whole content comes once and in order |
| FileList.ReadNames | src/filelistdataprovider.cpp:51-82 | read in any sizes and cut at the zero bytes, the content is that of the joined non-empty names |
| FileList.NamesExact | src/filelistdataprovider.cpp:51-70 | cut at the zero bytes it is the list of non-empty names if and only if there is one and none contains a zero byte |
| KeyForMailbox.DoWork | src/qgpgmekeyformailboxjob.cpp:87-125 | the nested loops make the choice over all matching user IDs of usable keys, in order |
| KeyForMailbox.TimeOf | src/qgpgmekeyformailboxjob.cpp:105-110 | the creation time of the usable encryption subkey behind which there is no other, by its place and fields, or zero without any |
| KeyForMailbox.MatchesExact | src/qgpgmekeyformailboxjob.cpp:95 | an address matches if and only if it is the same but for the case of its letters |
| KeyForMailbox.ChoiceMatches | src/qgpgmekeyformailboxjob.cpp:87-125 | the choice matches the address and belongs to its key, and there is none only if nothing matches |
| KeyForMailbox.BestExact | src/qgpgmekeyformailboxjob.cpp:96-121 | the choice is the first best if and only if that is unusable, or no unusable user ID behind it has a higher validity |
| KeyForMailbox.RevokedIsChosen | src/qgpgmekeyformailboxjob.cpp:100-104 | a usable and a revoked user ID of which the revoked one is chosen |
| KeyForMailbox.ChoiceOfTwo | src/qgpgmekeyformailboxjob.cpp:56-121 | of two user IDs, by their flags, validities and times |
| KeyForMailbox.LaterKeyIsChosen | src/qgpgmekeyformailboxjob.cpp:105-119 | two keys of which the one with the later last subkey is chosen |
| KeyForMailbox.BestThroughoutExact | src/qgpgmekeyformailboxjob.cpp:96-121 | the choice is at every point the first best so far if and only if no unusable user ID intrudes |
| KeyForMailbox.BestAmongUsable | src/qgpgmekeyformailboxjob.cpp:96-121 | among usable user IDs it is the first maximum of validity and then time |
| RandomName.TakeLetters | src/util.cpp:89-103 | the inner loop takes the letters of five groups, or until there are enough |
| RandomName.MarkIsNeverUsed | src/util.cpp:89-92 | the marked bit ends the loop after exactly five groups and is part of none |
| RandomName.LetterExact | src/util.cpp:91-99 | the 62 letters in order of their six bits, and none for 62 and 63 |
| RandomName.GroupExact | src/util.cpp:89-92 | the five groups are the lowest digits of the draw to the base 64, the lowest first |
| RandomName.GetRandomCharacters | src/util.cpp:77-107 | for a positive count exactly the first letters of the stream; for zero, one letter unless the first group is dropped |
| MultiDelete.Job.Start | src/multideletejob.cpp:78-91 | the first delete job, or nothing for an empty list |
| MultiDelete.Job.StartAJob | src/multideletejob.cpp:126-139 | the job for the current key, or nothing behind the last |
| MultiDelete.Job.SlotResult | src/multideletejob.cpp:101-124 | the next job with its progress, or done and the result |
| MultiDelete.Job.Run | src/multideletejob.cpp:93-124 | any series of results and cancels acts as the transition function |
| MultiDelete.WholeRun | src/multideletejob.cpp:78-139 | in every run the attempted keys are a prefix of the list in order, progress counts up one by one, done and one result come at most once, a true error names the last key attempted unless cancelled, and without error and cancel all keys are attempted |
| MultiDelete.ResultExact | src/multideletejob.cpp:101-123 | a result starts the next job and counts on, or ends with this report: which error and which key |
| MultiDelete.EveryRunReports | src/multideletejob.cpp:93-124 | in every run a job that has ended was ended by one result, with that report |
| MultiDelete.CancelStops | src/multideletejob.cpp:93-99 | after a cancel no further key is attempted |

## Left out

- LdapServer.ToInt: stands for the Qt conversion, as it is documented; that is not part of the repository.
- LdapServer.Decoded: leaves a percent sign without two hexadecimal digits as it is; what the Qt decoder does there is not part of the repository, and no encoded text contains it.
- KeyMerge.MergedList: takes sorted lists; `KeyMerge.MergedFromAny` covers lists as they come, for any way to sort them, since the standard library's sort may put equal fingerprints in any order.
- LdapServer.RoundTripExact: for fields outside ASCII it says nothing about the program, which passes through Latin-1 and decodes the bytes as UTF-8; the same holds for PrefixedRoundTripExact.
- ByteArrayProvider.Provider.Read: does not cover negative offsets, at which the program reads in front of its data.
- FileList.Provider.Read: does not cover negative offsets either, since it forwards to that.
- ByteArrayProvider.Provider.Write: does not cover writes that start inside the data and end behind it, which the program excludes by an assertion, nor negative offsets.
- Character-set conversion between QString, UTF-8 and bytes, and upper-casing, lower-casing and blanks outside ASCII: strings are sequences of characters, and bytes are characters below 256.
- The other branch of `parseURL` and `splitURL`, for argument types other than LDAP servers, and the normalisation of URLs: they only call QUrl.
- `DN::operator[]`, iterators and the constructors from null pointers: one loop or less, and easy.
- The status slot of the refresh job: it is connected to nothing.
- Keys shared by value inside gpgme++: merging a key is an operation on values here.
- QIODevice providers, sockets, dirmngr, temporary-file cleaning and the other job classes: they forward to Qt or gpgme.
- Failure to allocate memory.
