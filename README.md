# MultiClip core, modelled in Dafny

MultiClip is a Windows clipboard manager. It keeps a history of clipboard
snapshots and shares them between instances on the local network. This
project models the logic behind four parts of the program and proves
properties of it.

**Clipboard data.** A snapshot (`ClipboardState`) is an identifier, a time
stamp and a list of items. An item (`ClipboardItem`) is one clipboard
format's bytes. Large buffers are stored DEFLATE-compressed when that saves
more than a third. The model covers:
- the format table and the filter that drops formats Windows can
  synthesise from a format already kept (`FilterInexpendable`);
- the preferred-item choice and the parsers for ANSI text, UTF-16 text,
  file-drop lists and DIB images, including the bitmap file header built
  in front of a DIB;
- the byte comparison helpers;
- the three notions of equality: item, snapshot and the weaker one used
  to ignore repeated notifications.

**Change detection and history.** `ClipboardManager` reacts to clipboard
notifications:
- it skips the notification caused by its own write;
- it numbers the reads, so a read overtaken by a later notification is
  dropped;
- it announces a snapshot only when it differs from the remembered one.

Reads and writes are retried a fixed number of times (`Dispatchers`). The
main window trims the history to the configured size, puts a new snapshot
and its view model in front, marks the current entry and deletes entries.
It also chooses how a snapshot is shown: as an image, a colour swatch,
dedented text, a file list, or "unknown".

**Wire protocol.** Each connection carries one request and one response.
- A request is a 4-byte big-endian length, then a 4-byte big-endian type
  descriptor, then the BSON payload.
- A response is a 4-byte length, then the BSON payload.
- Descriptors are registered once per request type; a second type with
  the same descriptor is a programming error.
- The server answers a zero-length request with four zero bytes and leaves
  any failed request unanswered.
- There are four messages: ping, snapshot list, snapshot fetch and change
  notification.

**Discovery.** The scanner enumerates the addresses of each subnet behind
each valid interface's gateways, and keeps those that answer an ICMP ping.
It then sends each one an application ping. Answers from other instances
become hosts, de-duplicated by machine GUID. A probe that fails with a
socket error or a time-out means "no instance there"; any other failure of
a probe (a negative reply length, for one) aborts the whole scan, and the
list of known hosts is then left as it was. An address enumeration that
never ends overflows the stack, which no catch block sees: the process
ends. The list of known hosts is
reconciled with each scan:
- hosts that did not answer are removed;
- hosts already known are kept as they are;
- new hosts are appended.

The address enumeration is modelled as the code does it, faults included.
- It terminates only when, at every step, the upper bound of the first
  differing byte is 255. So a /20 network (gateway 10.0.0.1, mask
  255.255.240.0) recurses forever. The model runs it with a fuel bound and
  proves it never finishes, whatever the fuel.
- A /16 network yields a.b.0.0 … a.b.255.0 and then a.b.255.0 …
  a.b.255.255: 512 addresses, one of them twice, and most hosts of the
  subnet are never probed.
- The exclusion of the interface's own address compares `IPAddress`
  objects by reference, so it removes nothing. The model leaves it out.
- A snapshot fetch answers with the first serializable item of the
  snapshot. The snapshot list describes the preferred item. For a snapshot
  holding text and then an image, the list announces an image but the
  fetch returns the text.

Behaviour that lies outside the model enters as parameters:
- the DEFLATE codec, with the laws the store relies on (`Lawful`);
- the BSON serializers, with a round-trip law (`RoundTrips`);
- reading and writing the OS clipboard, as functions from the attempt
  number to a result;
- ICMP and application pings, as functions of the address;
- colour-name lookup and the float parser used for alpha (`ColorEnv`);
- file-system existence checks.

Network streams are modelled as a class holding the chunks still to arrive
and the bytes written so far.

Where the code and its documentation differ, the model follows the code:
- `FilterInexpendable` keeps Bitmap when it comes before Dib.
- When a failed clipboard write is followed by a failed rollback,
  `SetStateAsync` raises the rollback's error, not the write's.

## Model

| member | source | states |
|---|---|---|
| DataFormats.DefaultConversionsProper | MultiClip/Clipboard/DataFormats.cs:155-173 | The default table holds 16 pairwise distinct conversions, none converts a format to itself, and no format converts to itself |
| DataFormats.FilterInexpendable | MultiClip/Clipboard/DataFormats.cs:208-226 | The loop returns `Filtered(source)`: a subsequence of the input that keeps every copy of every inexpendable format |
| DataFormats.FilteredIsSubsequence | MultiClip/Clipboard/DataFormats.cs:208-226 | The filter only deletes formats; the kept ones stay in their original order |
| DataFormats.FilteredKeepsEveryCopy | MultiClip/Clipboard/DataFormats.cs:181-186 | A format that is inexpendable, or that no conversion targets, keeps as many occurrences as it had in the input |
| DataFormats.HDropNeverDropped | MultiClip/Clipboard/DataFormats.cs:155-173 | HDrop has no incoming conversion, so every HDrop survives the filter |
| DataFormats.FilteredPrefix | MultiClip/Clipboard/DataFormats.cs:214-224 | Filtering a prefix gives a prefix of the filtered result: the loop never revisits what it has kept |
| DataFormats.FilteredCovers | MultiClip/Clipboard/DataFormats.cs:219-222 | Every input format is either kept or convertible from a kept format |
| DataFormats.FilteredHasNoEarlierSource | MultiClip/Clipboard/DataFormats.cs:219-222 | A kept expendable format has no earlier kept format that converts to it |
| DataFormats.FilteredIdempotent | MultiClip/Clipboard/DataFormats.cs:208-226 | Filtering a filtered list changes nothing |
| DataFormats.FilterDependsOnOrder | MultiClip/Clipboard/DataFormats.cs:155-173 | [Bitmap, Dib] keeps both formats, [Dib, Bitmap] keeps only Dib, and OemText after UnicodeText is dropped |
| ClipboardItems.Construct | MultiClip/Clipboard/ClipboardItem.cs:74-80 | The private constructor refuses a null buffer with ArgumentNullException and otherwise stores exactly its arguments |
| ClipboardItems.FromBuffer | MultiClip/Clipboard/ClipboardItem.cs:39-52 | Compresses exactly when long-term optimisation is on, the buffer has at least 5 MiB, and the result saves more than a third; the logical size is the input length |
| ClipboardItems.FromPointer | MultiClip/Clipboard/ClipboardItem.cs:54-72 | Compresses exactly when the block exceeds 4096 bytes and the result saves more than a third; otherwise the copy is kept as is |
| ClipboardItems.FactoriesKeepData | MultiClip/Clipboard/ClipboardItem.cs:39-72 | With a lawful codec, both factories keep the item's logical bytes equal to the input, and memory use never exceeds the logical size |
| ClipboardItems.LogicalSize | MultiClip/Clipboard/ClipboardItem.cs:23-28 | `Size` is the length of the decompressed data |
| ClipboardItems.ItemEqualsMeansSameData | MultiClip/Clipboard/ClipboardItem.cs:139-159 | Comparing raw buffers and flags agrees with comparing format and logical data, for items whose stored form is what the factories produce |
| ClipboardItems.ItemEqualsReflexive | MultiClip/Clipboard/ClipboardItem.cs:139-159 | Every item equals itself |
| ClipboardItems.ItemEquals | MultiClip/Clipboard/ClipboardItem.cs:139-159 | Items of different formats are never equal; two compressed items are equal exactly when their compressed buffers are, and otherwise exactly when their logical data are |
| ClipboardItems.ItemObject.constructor | MultiClip/Clipboard/ClipboardItem.cs:74-80 | A new item object has an empty inflated-buffer cache |
| ClipboardItems.ItemObject.GetDataBuffer | MultiClip/Clipboard/ClipboardItem.cs:86-107 | Returns the logical bytes, of length `Size`; a compressed item caches its inflated buffer and an uncompressed one leaves the cache alone |
| ClipboardItems.ItemObject.CopyTo | MultiClip/Clipboard/ClipboardItem.cs:113-137 | Writes the logical bytes into the first `Size` cells of the destination and leaves the rest untouched |
| ClipboardItems.ItemObject.Reclaim | MultiClip/Clipboard/ClipboardItem.cs:35 | The collector may clear the weak cache at any time without affecting later reads |
| Stdlib.MemCmp | MultiClip/Native/Stdlib.cs:22-35 | True exactly when both arrays have the same length and the same bytes |
| Stdlib.MemCmpPrefix | MultiClip/Native/Stdlib.cs:40-56 | A count above either length raises ArgumentOutOfRange; otherwise true exactly when the lengths agree and the first `count` bytes agree |
| Stdlib.MemCmpRange | MultiClip/Native/Stdlib.cs:61-77 | The same guard; otherwise true exactly when the lengths agree and the `count` bytes from `index` agree |
| Stdlib.OverloadsAgree | MultiClip/Native/Stdlib.cs:22-77 | The range overload at index 0 equals the prefix overload, and a full-length prefix equals the whole-array comparison |
| ClipboardStates.NewState | MultiClip/Clipboard/ClipboardState.cs:42-47 | A null item list raises ArgumentNullException; otherwise the snapshot holds exactly the given identifier, time and items |
| ClipboardStates.FirstIndexWithFormat | MultiClip/Clipboard/ClipboardState.cs:60-70 | The index of the first item with the format, or none exactly when no item has it |
| ClipboardStates.FirstWithFormatUnique | MultiClip/Clipboard/ClipboardState.cs:60-70 | When formats are distinct, looking up an item's format finds that item |
| ClipboardStates.FirstWithFormatOfPermutation | MultiClip/Clipboard/ClipboardState.cs:60-70 | When formats are distinct, the format lookup does not depend on item order |
| ClipboardStates.StateEquals | MultiClip/Clipboard/ClipboardState.cs:52-78 | Equal snapshots have as many items, each item of the first has an equal item of its format in the second, and an empty snapshot equals exactly the empty ones |
| ClipboardStates.StateEqualsIgnoresOrder | MultiClip/Clipboard/ClipboardState.cs:52-78 | Snapshot equality holds for reorderings of both item lists exactly when it holds for the originals |
| ClipboardStates.StateEqualsReflexive | MultiClip/Clipboard/ClipboardState.cs:52-78 | A snapshot with distinct formats equals itself |
| ClipboardStates.DuplicateFormatBreaksReflexivity | MultiClip/Clipboard/ClipboardState.cs:60-70 | A snapshot with two Text items of different content is not equal to itself, because only the first item of each format is looked up |
| ClipboardParser.GetAbstractFormat | MultiClip/Clipboard/ClipboardParser.cs:58-68 | Dib is Image, HDrop is FileDrop, Text and UnicodeText are Text, and every other format is Unknown, each in both directions |
| ClipboardParser.CanParse | MultiClip/Clipboard/ClipboardParser.cs:77-80 | The image parser accepts exactly Dib items, the file-list parser exactly HDrop, the text parser exactly Text and UnicodeText, and Unknown every other format |
| ClipboardParser.SerializableFormats | MultiClip/Clipboard/ClipboardParser.cs:82-85 | A format can be sent over the network exactly when it is Dib, Text or UnicodeText |
| ClipboardParser.IndexIn | MultiClip/Clipboard/ClipboardParser.cs:187 | The first position of the format in the table, or -1 exactly when it is absent |
| ClipboardParser.GetFormatPreference | MultiClip/Clipboard/ClipboardParser.cs:185-194 | Dib ranks 4, HDrop 3, UnicodeText 2, Text 1, anything else 0 |
| ClipboardParser.PreferredIndexSpec | MultiClip/Clipboard/ClipboardParser.cs:87-97 | The chosen index is absent exactly when no item is eligible; otherwise it is eligible, ranks highest, and comes first among items of that rank |
| ClipboardParser.GetPreferredItem | MultiClip/Clipboard/ClipboardParser.cs:87-97 | Null exactly when no item is eligible; otherwise an eligible item of maximal preference, the first of them in list order |
| ClipboardParser.PreferredSerializableIsImageOrText | MultiClip/Clipboard/ClipboardParser.cs:87-97 | With `serializable` set, the preferred item is always Dib, Text or UnicodeText |
| ClipboardParser.PreferredIsFirstOfFormat | MultiClip/Clipboard/ClipboardParser.cs:87-97 | The preferred item is the first item of its format |
| ClipboardParser.WeakEquals | MultiClip/Clipboard/ClipboardParser.cs:124-146 | An empty snapshot weakly equals exactly the empty ones; a non-empty snapshot weakly equals another only when some item of one equals some item of the other |
| ClipboardParser.WeakEqualsReflexive | MultiClip/Clipboard/ClipboardParser.cs:124-146 | Every snapshot weakly equals itself |
| ClipboardParser.StateEqualsImpliesWeakEquals | MultiClip/Clipboard/ClipboardParser.cs:124-146 | Equal snapshots are weakly equal |
| ClipboardParser.WeakEqualsLooksAtPreferredOnly | MultiClip/Clipboard/ClipboardParser.cs:131-135 | Two snapshots that share only their preferred text item are weakly equal but not equal |
| ClipboardParser.ZLength | MultiClip/Clipboard/ClipboardParser.cs:201-203 | The length of the text before the first zero byte, or the whole buffer when it has none |
| ClipboardParser.ParseStringAZ | MultiClip/Clipboard/ClipboardParser.cs:199-205 | The loop finds that length and decodes those bytes as ASCII |
| ClipboardParser.AnsiTextOfTerminated | MultiClip/Clipboard/ClipboardParser.cs:199-205 | ASCII text followed by a terminator and anything else reads back as the text |
| ClipboardParser.WZLength | MultiClip/Clipboard/ClipboardParser.cs:214-216 | An even length that stops at the first aligned zero code unit, or at the end of the buffer |
| ClipboardParser.WZLengthUnique | MultiClip/Clipboard/ClipboardParser.cs:214-216 | Those three properties determine the length |
| ClipboardParser.ParseStringWZ | MultiClip/Clipboard/ClipboardParser.cs:212-218 | The loop finds that length and decodes those bytes as UTF-16 |
| ClipboardParser.EncodingHasNoZeroUnit | MultiClip/Clipboard/ClipboardParser.cs:214-216 | Encoding text without NUL characters produces no aligned zero code unit |
| ClipboardParser.UnicodeTextOfTerminated | MultiClip/Clipboard/ClipboardParser.cs:212-218 | UTF-16 text without NULs or surrogates, followed by a two-byte terminator and anything else, reads back as the text |
| ClipboardParser.TextOf | MultiClip/Clipboard/ClipboardParser.cs:165-183 | Fails with ArgumentException exactly when the item is not text |
| ClipboardParser.ParseText | MultiClip/Clipboard/ClipboardParser.cs:165-183 | Returns that text and fills the item's cache only when it read a compressed buffer |
| ClipboardParser.FileNames | MultiClip/Clipboard/ClipboardParser.cs:256-267 | A buffer shorter than the 18-byte header raises ArgumentOutOfRange; the names returned are never empty and contain no NUL |
| ClipboardParser.FileNamesRoundTrip | MultiClip/Clipboard/ClipboardParser.cs:256-267 | A header followed by NUL-separated, double-NUL-terminated names gives back exactly those names |
| ClipboardParser.FileDropOf | MultiClip/Clipboard/ClipboardParser.cs:247-253 | A non-file-drop item raises ArgumentException |
| ClipboardParser.ParseFileDrop | MultiClip/Clipboard/ClipboardParser.cs:247-279 | Returns that list and fills the cache only when it read a compressed buffer |
| ClipboardParser.ImageOf | MultiClip/Clipboard/ClipboardParser.cs:223-228 | A non-image item raises ArgumentException |
| ClipboardParser.ParseImage | MultiClip/Clipboard/ClipboardParser.cs:223-242 | Returns the bitmap file bytes of the DIB and fills the cache only when it read a compressed buffer |
| ClipboardParser.IndexOf | MultiClip/Clipboard/ClipboardParser.cs:281-304 | An empty pattern raises IndexOutOfRange; otherwise returns the first position where the pattern occurs, or -1 when it occurs nowhere |
| Encodings.Sanitize | MultiClip/Clipboard/ClipboardParser.cs:157-160 | Sanitising keeps one code unit per input unit, so decoding never changes the length |
| Encodings.Utf16Encode | MultiClip/Clipboard/ClipboardParser.cs:157-160 | Encoding writes two bytes per code unit |
| Encodings.CodeUnitsOfEncode | MultiClip/Clipboard/ClipboardParser.cs:157-160 | Reading code units back from the encoding gives the input |
| Encodings.SanitizeKeepsPlainUnits | MultiClip/Clipboard/ClipboardParser.cs:157-160 | Text without surrogates passes sanitising unchanged |
| Encodings.Utf16RoundTrip | MultiClip/Clipboard/ClipboardParser.cs:157-160 | UTF-16 decoding inverts encoding for text without surrogates |
| Encodings.SplitOn | MultiClip/Clipboard/ClipboardParser.cs:262-263 | `Split` returns at least one piece and no piece holds the separator |
| Encodings.SplitJoin | MultiClip/Clipboard/ClipboardParser.cs:262-263 | Splitting the join of separator-free pieces gives back the pieces |
| Encodings.JoinSplit | MultiClip/Clipboard/ClipboardParser.cs:262-263 | Joining the pieces of a split gives back the string |
| Encodings.SplitCount | MultiClip/Clipboard/ClipboardParser.cs:262-263 | Splitting gives one piece more than there are separators |
| Encodings.NonEmpty | MultiClip/Clipboard/ClipboardParser.cs:264 | Keeps only non-empty pieces, all taken from the input |
| Encodings.TrimStart | MultiClip/MainWindow.xaml.cs:518 | Removes exactly the leading white space: what is dropped is white space and the result does not start with it |
| Encodings.TrimEnd | MultiClip/MainWindow.xaml.cs:518 | Removes exactly the trailing white space |
| DIBitmap.Int32LE | MultiClip/Utilities/DIBitmap32.cs:13-39 | A 32-bit field is four bytes |
| DIBitmap.ReadInt32LEOfWrite | MultiClip/Utilities/DIBitmap32.cs:13-39 | A little-endian field reads back as the value written, at any offset |
| DIBitmap.ReadInfoHeader | MultiClip/Utilities/DIBitmap32.cs:46 | Reading the 40-byte info header fails with ArgumentOutOfRange exactly when the DIB is shorter than that |
| DIBitmap.FileHeaderBytes | MultiClip/Utilities/DIBitmap32.cs:13-25 | The file header is 14 bytes |
| DIBitmap.FileHeaderFields | MultiClip/Utilities/DIBitmap32.cs:52-59 | The header bytes read back as "BM", the size, two zero reserved words and the pixel offset |
| DIBitmap.BitmapFileBytes | MultiClip/Utilities/DIBitmap32.cs:44-69 | A DIB shorter than the 40-byte info header raises ArgumentOutOfRange; otherwise the file is "BM", size 14 + biSize + biSizeImage, zero reserved words, offset 14 + biSize + 4·biClrUsed (each wrapped to 32 bits), followed by the DIB unchanged |
| Dispatchers.Attempts | MultiClip/Utilities/Dispatchers.cs:48-86 | A retry count n > 0 allows n + 1 attempts; otherwise one |
| Dispatchers.FirstSuccessSpec | MultiClip/Utilities/Dispatchers.cs:48-86 | The outcome is the first successful attempt if there is one, else the last failure |
| Dispatchers.Retried | MultiClip/Utilities/Dispatchers.cs:48-86 | The retried call succeeds exactly when one of the allowed attempts does, with the first success, every earlier attempt having failed; otherwise it fails with the last attempt's error |
| Dispatchers.RetryOnError | MultiClip/Utilities/Dispatchers.cs:48-86 | The loop stops at the first success or after the allowed attempts; all earlier attempts failed and a failure raises the last error |
| Dispatchers.RetryOnErrorAction | MultiClip/Utilities/Dispatchers.cs:31-41 | The same for actions without a result |
| ClipboardManagers.UpdateResult | MultiClip/Clipboard/ClipboardManager.cs:158-173 | A read is announced exactly when it succeeded, no later notification has arrived, and nothing is remembered or the remembered snapshot does not weakly equal it; what is announced is the snapshot read, and reading back the remembered snapshot is never announced |
| ClipboardManagers.ClipboardManager.constructor | MultiClip/Clipboard/ClipboardManager.cs:49-57 | Starts not ignoring, with counter 0 and no remembered snapshot |
| ClipboardManagers.ClipboardManager.Collect | MultiClip/Clipboard/ClipboardManager.cs:55 | The collector may drop the weakly referenced snapshot; nothing else changes |
| ClipboardManagers.ClipboardManager.GetState | MultiClip/Clipboard/ClipboardManager.cs:59-75 | Returns the remembered snapshot if alive, else the retried read; a success is remembered |
| ClipboardManagers.ClipboardManager.SetState | MultiClip/Clipboard/ClipboardManager.cs:82-107 | Fails before writing if the current snapshot cannot be read; otherwise it sets the ignore flag, writes with retries, and on failure rolls back and raises the write's error (or the rollback's error when the rollback fails too) |
| ClipboardManagers.ClipboardManager.IgnoreNextUpdate | MultiClip/Clipboard/ClipboardManager.cs:109-112 | Sets the flag and nothing else |
| ClipboardManagers.ClipboardManager.BeginUpdate | MultiClip/Clipboard/ClipboardManager.cs:127-134 | An ignored notification clears the flag and does nothing else; otherwise the counter is incremented with 32-bit wrap-around and becomes this read's number |
| ClipboardManagers.ClipboardManager.CompleteUpdate | MultiClip/Clipboard/ClipboardManager.cs:136-173 | Reads with retries, then once more as a fallback; announces and remembers the snapshot exactly when it is current and differs from the remembered one |
| ClipboardManagers.OvertakenRead | MultiClip/Clipboard/ClipboardManager.cs:164-167 | When a second notification starts before the first read completes, the first read announces nothing |
| ClipboardManagers.OwnWriteIsIgnored | MultiClip/Clipboard/ClipboardManager.cs:125-131 | The notification caused by the application's own successful write (SetStateAsync sets the flag before writing) starts no read |
| MainWindow.ExpandTabs | MultiClip/MainWindow.xaml.cs:571 | The result has no tabs and the same number of line feeds |
| MainWindow.BlanksToSpaces | MultiClip/MainWindow.xaml.cs:490 | Same length; line feeds stay exactly where they were, every blank (white space other than CR and LF) becomes a space, and every non-blank is kept |
| MainWindow.LeadingSpaces | MultiClip/MainWindow.xaml.cs:577-592 | The number of spaces before the first non-space |
| MainWindow.CountLeadingWhitespace | MultiClip/MainWindow.xaml.cs:577-592 | The loop counts exactly those spaces |
| MainWindow.MinLeading | MultiClip/MainWindow.xaml.cs:573 | The smallest indentation over the lines, attained by one of them |
| MainWindow.Spaces | MultiClip/MainWindow.xaml.cs:574 | A run of n spaces |
| MainWindow.LinesCount | MultiClip/MainWindow.xaml.cs:572 | There is one line more than there are line feeds |
| MainWindow.DedentHasNoBreaks | MultiClip/MainWindow.xaml.cs:574 | Cutting indentation introduces no line breaks |
| MainWindow.DedentDropsSpaces | MultiClip/MainWindow.xaml.cs:573-574 | Each line loses exactly the common indentation, and some line ends up unindented |
| MainWindow.PostProcessText | MultiClip/MainWindow.xaml.cs:569-575 | The output has as many lines as the normalised input; each input line is the common indentation followed by the output line; some output line is unindented |
| MainWindow.Existing | MultiClip/MainWindow.xaml.cs:548-550 | Keeps exactly the paths that exist |
| MainWindow.TextualView | MultiClip/MainWindow.xaml.cs:516-546 | Shows a colour swatch exactly when the trimmed text is shorter than 50 characters and parses as a colour, with black text on bright colours; otherwise the post-processed text |
| MainWindow.IsBright | MultiClip/MainWindow.xaml.cs:521-523 | Black text needs alpha at least 127 and a channel sum at least 381; for an opaque colour it is chosen exactly when the channel sum reaches 381 |
| MainWindow.CreateView | MultiClip/MainWindow.xaml.cs:492-567 | A colour view carries a parsed colour of short text, and a file view lists only existing paths |
| MainWindow.ShownFormat | MultiClip/MainWindow.xaml.cs:494 | Any non-empty snapshot is shown by its Dib, else HDrop, else UnicodeText, else Text item, else an unknown format |
| MainWindow.DibIsShownAsImage | MultiClip/MainWindow.xaml.cs:505-515 | A snapshot with a Dib is shown as an image (or the view fails) |
| MainWindow.HDropIsShownAsFiles | MultiClip/MainWindow.xaml.cs:547-558 | A snapshot with an HDrop and no Dib is shown as a file list (or the view fails) |
| MainWindow.TextIsShownAsText | MultiClip/MainWindow.xaml.cs:516-546 | A text snapshot without Dib or HDrop always gets a colour or text view |
| MainWindow.OtherIsUnknown | MultiClip/MainWindow.xaml.cs:495-503 | A snapshot with none of the four formats is shown as unknown |
| MainWindow.PreferredRanksHighest | MultiClip/MainWindow.xaml.cs:494 | Without the serializable filter, every non-empty snapshot has a preferred item, ranked at least as high as every other item |
| MainWindow.TextNeverFails | MultiClip/MainWindow.xaml.cs:516-546 | Building the view of a text snapshot never fails |
| MainWindow.Collected | MultiClip/MainWindow.xaml.cs:342-351 | Trimming keeps the first maxItems − 1 snapshots in place; of the e = n − maxItems + 1 snapshots from there on, the loop removes only ⌈e / 2⌉ |
| MainWindow.CollectedLeavesRoom | MultiClip/MainWindow.xaml.cs:342-351 | Within the limit, trimming leaves room for one more snapshot |
| MainWindow.CollectedIsPartial | MultiClip/MainWindow.xaml.cs:342-351 | Two or more snapshots over the limit are not all removed, so the history exceeds maxItems after the insert |
| MainWindow.CollectedAtExit | MultiClip/MainWindow.xaml.cs:347-350 | The loop's final list is the trimmed history |
| MainWindow.ViewModel.constructor | MultiClip/ViewModels/ClipboardViewModel.cs:17-25 | A view model starts not current |
| MainWindow.IndexOfView | MultiClip/MainWindow.xaml.cs:625 | The first position of this view model, or -1 exactly when it is absent |
| MainWindow.IndexOfState | MultiClip/MainWindow.xaml.cs:627 | The first position of a snapshot equal to the given one, or -1 exactly when there is none |
| MainWindow.RemoveAt | MultiClip/MainWindow.xaml.cs:625-627 | Removing at -1 changes nothing; otherwise exactly that element is removed |
| MainWindow.DeleteMayRemoveAnother | MultiClip/MainWindow.xaml.cs:627 | Two distinct snapshots without items are equal, so deleting the second removes the first |
| MainWindow.History.constructor | MultiClip/MainWindow.xaml.cs:342-345 | The history starts empty, with the configured limit |
| MainWindow.History.CollectStates | MultiClip/MainWindow.xaml.cs:342-351 | A limit below 1 makes `RemoveAt` throw, leaving the history unchanged; otherwise the history becomes the trimmed history |
| MainWindow.History.MarkCurrentViewModel | MultiClip/MainWindow.xaml.cs:611-621 | Afterwards exactly the given view model is current |
| MainWindow.History.OnClipboardStateChanged | MultiClip/MainWindow.xaml.cs:353-375 | After trimming, the new snapshot and a fresh view model of its kind go in front, and only that view model is current; a failure leaves the trimmed history and the views as they were |
| MainWindow.History.OnDeleteStateClicked | MultiClip/MainWindow.xaml.cs:623-629 | A listed view model is removed, together with the first snapshot equal to its own; an unlisted one changes nothing |
| ColorParser.RemoveSpaces | MultiClip/Utilities/ColorParser.cs:13 | The result has no spaces and text without spaces is unchanged |
| ColorParser.RemoveSpacesIdempotent | MultiClip/Utilities/ColorParser.cs:13 | Removing spaces twice is removing them once |
| ColorParser.SpacesAreIgnored | MultiClip/Utilities/ColorParser.cs:9-53 | Inserting or removing spaces never changes the parse |
| ColorParser.DecimalDigits | MultiClip/Utilities/ColorParser.cs:20-22 | A decimal rendering is a non-empty string of digits |
| ColorParser.DigitsValueOfDecimal | MultiClip/Utilities/ColorParser.cs:20-22 | A rendering's digits have the rendered value |
| ColorParser.ParseByteOfDecimal | MultiClip/Utilities/ColorParser.cs:20-22 | `byte.TryParse` accepts the rendering of every byte value |
| ColorParser.TrimNumberWhite | MultiClip/Utilities/ColorParser.cs:20-22 | Trimming number white space never lengthens the string |
| ColorParser.DropTrailingNuls | MultiClip/Utilities/ColorParser.cs:20-22 | Dropping trailing NULs never lengthens the string |
| ColorParser.ParseByte | MultiClip/Utilities/ColorParser.cs:20-22 | `byte.TryParse` refuses the empty string, accepts a run of digits worth at most 255 with that value, and refuses a larger one |
| ColorParser.TryParse | MultiClip/Utilities/ColorParser.cs:9-53 | After removing spaces, a functional form succeeds only with three or four components, with alpha 0 for three; a named form succeeds exactly when the colour translator does, with its colour, its exception being caught; any other text fails |
| ColorParser.FunctionalShape | MultiClip/Utilities/ColorParser.cs:14-17 | An `rgb(`…`)` or `rgba(`…`)` text is recognised, and its components are the comma-separated pieces between the parentheses |
| ColorParser.FunctionalForm | MultiClip/Utilities/ColorParser.cs:14-38 | Such a text parses exactly as its list of components does |
| ColorParser.FunctionalComponents | MultiClip/Utilities/ColorParser.cs:14-38 | The same, for any space-free functional text |
| ColorParser.DecimalComponents | MultiClip/Utilities/ColorParser.cs:18-27 | Three decimal byte components give that colour, with alpha 0 |
| ColorParser.RgbTriple | MultiClip/Utilities/ColorParser.cs:14-27 | `rgb(r,g,b)` and `rgba(r,g,b)` parse to (0, r, g, b) for every byte triple |
| ColorParser.RgbWithAlpha | MultiClip/Utilities/ColorParser.cs:28-38 | Four components give that colour when the alpha parses, and fail otherwise |
| ColorParser.WrongArity | MultiClip/Utilities/ColorParser.cs:18-39 | Any other number of components fails |
| ColorParser.EmptyTextIsNamed | MultiClip/Utilities/ColorParser.cs:40-52 | Empty text goes to the colour-name lookup, whose failure is caught |
| NetUtils.Wrap32 | MultiClip/Network/NetUtils.cs:10-13 | Reduces to a signed 32-bit value congruent modulo 2^32, unchanged when it is already in range |
| NetUtils.Unsigned | MultiClip/Network/NetUtils.cs:10-13 | Two's complement reading: below 2^32, with the top bit set exactly for negative values |
| NetUtils.Signed | MultiClip/Network/NetUtils.cs:15-18 | Inverts the unsigned reading |
| NetUtils.BytesOfValue | MultiClip/Network/NetUtils.cs:10-18 | The four big-endian bytes of a value read back as that value |
| NetUtils.ValueBytesOf | MultiClip/Network/NetUtils.cs:10-18 | Any four bytes are the big-endian bytes of the value they spell |
| NetUtils.GetBytes | MultiClip/Network/NetUtils.cs:10-13 | Four bytes, most significant first |
| NetUtils.ToInt32 | MultiClip/Network/NetUtils.cs:15-18 | An empty array raises ArgumentOutOfRange and one to three bytes raise ArgumentException |
| NetUtils.ToInt32ReadsFourBytes | MultiClip/Network/NetUtils.cs:15-18 | Only the first four bytes are read |
| NetUtils.DecodeEncode | MultiClip/Network/NetUtils.cs:10-18 | Decoding the encoding of any int gives it back |
| NetUtils.EncodeDecode | MultiClip/Network/NetUtils.cs:10-18 | Encoding the decoding of any four bytes gives them back |
| NetUtils.Receive | MultiClip/Network/NetUtils.cs:44-49 | One Read fills an n-byte buffer with at most the rest of the first pending chunk and leaves the remainder zero; the delivered bytes followed by what stays pending are exactly what was pending; with nothing pending the buffer is all zeros |
| NetUtils.ReceiveSent | MultiClip/Network/NetUtils.cs:44-49 | Reading the length of what the peer sent first yields exactly those bytes |
| NetUtils.NetworkStream.constructor | MultiClip/Network/NetUtils.cs:44-66 | A stream starts with its pending chunks and nothing written |
| NetUtils.NetworkStream.Read | MultiClip/Network/NetUtils.cs:44-49 | Consumes exactly the bytes returned |
| NetUtils.NetworkStream.Write | MultiClip/Network/NetUtils.cs:58-61 | Appends exactly the bytes given |
| NetUtils.ReadInt32 | MultiClip/Network/NetUtils.cs:20-25 | Reads four bytes and decodes them big-endian |
| NetUtils.WriteInt32 | MultiClip/Network/NetUtils.cs:27-30 | Writes exactly the four big-endian bytes of the value |
| NetUtils.Read | MultiClip/Network/NetUtils.cs:44-49 | A negative count fails with an overflow and reads nothing; otherwise exactly count bytes are read |
| NetUtils.Write | MultiClip/Network/NetUtils.cs:58-61 | Writes exactly the bytes given |
| Requests.Bind | MultiClip/Network/Request.cs:93-94 | `GetOrAdd` keeps every existing binding and adds only the type's own descriptor |
| Requests.FirstDeclarationWins | MultiClip/Network/Request.cs:82-100 | Each declared descriptor ends up bound to the first type that declared it |
| Requests.DeclaredBound | MultiClip/Network/Request.cs:82-100 | Every bound descriptor belongs to the first type that declared it |
| Requests.Registry.constructor | MultiClip/Network/Request.cs:50 | The registry starts empty |
| Requests.Registry.Register | MultiClip/Network/Request.cs:82-100 | A type without a descriptor constant, or one whose descriptor is taken by another type, raises InvalidProgramException (seen by callers wrapped in TypeInitializationException); otherwise the descriptor is bound to the type |
| Requests.BindTwice | MultiClip/Network/Request.cs:82-100 | The GetOrAdd binding is idempotent, and binds the type exactly when the descriptor was free or already bound to it |
| Requests.RequestBytes | MultiClip/Network/Request.cs:102-117 | A request is its big-endian descriptor followed by its serialized payload |
| Requests.FromBytes | MultiClip/Network/Request.cs:52-69 | Too few bytes fail as `ToInt32` does, an unknown descriptor raises ArgumentException, and otherwise the payload is deserialized as the registered type, without a sender |
| Requests.RequestRoundTrip | MultiClip/Network/Request.cs:52-117 | Decoding a registered request's bytes gives back its payload; the sender GUID is not carried |
| Requests.UnknownDescriptorRefused | MultiClip/Network/Request.cs:66-69 | Bytes with an unregistered descriptor are refused |
| PingMessages.NewPingRequest | MultiClip/Network/Messages/Ping.cs:27-32 | A ping carries the local user name, machine name and version |
| PingMessages.GetPingResponse | MultiClip/Network/Messages/Ping.cs:73-82 | The answer carries the local machine GUID, user name, machine name and version |
| PingMessages.PingAnswerIgnoresCaller | MultiClip/Network/Messages/Ping.cs:43-46 | The answer depends neither on the caller nor on the request |
| PingMessages.PingCache.constructor | MultiClip/Network/Messages/Ping.cs:25 | The cache starts empty |
| PingMessages.PingCache.GetBytes | MultiClip/Network/Messages/Ping.cs:34-41 | Serializes once and then always returns a fresh copy of the first serialization |
| PingMessages.CopiesAreIndependent | MultiClip/Network/Messages/Ping.cs:34-41 | Changing a returned array does not affect the next call, which returns the first request's bytes even for a different request |
| ClipboardMessages.Describe | MultiClip/Network/Messages/Clipboard.cs:48-65 | A snapshot is listed exactly when it has a serializable item, with the id, time, size and abstract format of its preferred one |
| ClipboardMessages.GetInfoResponse | MultiClip/Network/Messages/Clipboard.cs:41-69 | At most one summary per snapshot; a summary is listed exactly when it is that of a wanted snapshot; each is of an image or text, and none is of a snapshot the peer listed as known |
| ClipboardMessages.InfoResponseExact | MultiClip/Network/Messages/Clipboard.cs:41-69 | The list holds, in order, one entry per wanted snapshot that has a serializable item, and nothing else |
| ClipboardMessages.AllSummarisedWithoutList | MultiClip/Network/Messages/Clipboard.cs:45-47 | Without a known-ids list, every describable snapshot is listed |
| ClipboardMessages.KnownNeverSummarised | MultiClip/Network/Messages/Clipboard.cs:45-46 | A snapshot the caller already knows is never listed |
| ClipboardMessages.FirstWithId | MultiClip/Network/Messages/Clipboard.cs:99 | The first snapshot with the id, or none exactly when there is none |
| ClipboardMessages.FirstSerializable | MultiClip/Network/Messages/Clipboard.cs:100-101 | The first item of a serializable format, or none exactly when there is none |
| ClipboardMessages.GetStateResponse | MultiClip/Network/Messages/Clipboard.cs:97-125 | An unknown id raises NullReferenceException; otherwise the response carries the snapshot's time and either the first serializable item's bytes and format, or an error with format 0 when there is none |
| ClipboardMessages.StateResponseTakesFirstNotPreferred | MultiClip/Network/Messages/Clipboard.cs:48-101 | For a snapshot holding text then a DIB, the list announces an image but the fetch returns the text |
| ClipboardMessages.RemoteClipboardState.constructor | MultiClip/Models/RemoteClipboardHost.cs:1-12 | A remote host record holds its identity and snapshots |
| ClipboardMessages.FirstHostAt | MultiClip/Network/Messages/Clipboard.cs:152 | The first remote host at the caller's address, or -1 exactly when there is none |
| ClipboardMessages.Fetched | MultiClip/Network/Messages/Clipboard.cs:156-166 | A successful, non-error response becomes a snapshot with the same id and time and a single item of the sent format and size |
| ClipboardMessages.PullNotified | MultiClip/Network/Messages/Clipboard.cs:147-170 | Only the first host at the caller's address gets the fetched snapshot appended; every other host is unchanged |
| ClipboardMessages.NotifiedSnapshotArrives | MultiClip/Network/Messages/Clipboard.cs:97-166 | A notified snapshot arrives with its id, time, the format of its first serializable item and that item's data |
| Messages.AllTypesRegistered | MultiClip/Network/Request.cs:82-100 | The four descriptors are distinct, every type is registered, and registering again changes nothing |
| Messages.GetResponse | MultiClip/Network/Server.cs:73 | Each request gets the response of its own type (the ping, list, fetch and notify handlers); only a state request for an unknown id fails |
| Messages.Respond | MultiClip/Network/Server.cs:72-84 | The handler fails exactly when the request's response does, always with NullReferenceException; with a round-tripping serializer, the bytes it returns read back as that response |
| Messages.ClientReadsResponse | MultiClip/Network/Host.cs:54-75 | With a serializer that meets the round-trip law, a client sending any registered request reads back exactly the response the server computes for it |
| Messages.UnknownStateUnanswered | MultiClip/Network/Server.cs:81-84 | A state request for an unknown id gets no answer at all |
| Servers.Answer | MultiClip/Network/Server.cs:62-84 | A zero length is answered with four zero bytes, a negative one with nothing; any other answer is a length header followed by that many bytes |
| Servers.Process | MultiClip/Network/Server.cs:58-85 | Writes exactly that answer and consumes the request |
| Servers.ProcessingLoop | MultiClip/Network/Server.cs:94-113 | Every accepted connection is served on its own stream |
| Servers.EmptyRequestAnsweredWithZeros | MultiClip/Network/Server.cs:64-68 | A zero-length request is answered with four zero bytes whatever follows |
| Servers.FramedRequestReadBack | MultiClip/Network/Server.cs:62-70 | The server reads back exactly the request bytes the client framed |
| Servers.RegisteredRequestAnswered | MultiClip/Network/Server.cs:62-84 | A registered request is answered with the handler's response behind its length; it is not answered at all when the handler fails or the response has 2^31 bytes or more |
| Servers.ExchangeDeliversResponse | MultiClip/Network/Server.cs:62-84 | The client decodes exactly the bytes the handler produced |
| Servers.UnknownRequestUnanswered | MultiClip/Network/Server.cs:72 | An unregistered descriptor gets no answer |
| Servers.Server.constructor | MultiClip/Network/Server.cs:18-24 | A new server is neither running nor dirty and has no thread |
| Servers.Server.Start | MultiClip/Network/Server.cs:29-40 | Starting a dirty server raises InvalidOperationException and changes nothing; otherwise it runs |
| Servers.Server.Stop | MultiClip/Network/Server.cs:45-53 | Without a thread, Stop raises NullReferenceException after clearing the running flag; otherwise it waits for the processing thread, which leaves its blocking accept only when a client connects: then the thread handle and the dirty flag are cleared, and without a connection Stop never returns and the server stays dirty |
| Servers.Lifecycle | MultiClip/Network/Server.cs:29-53 | Stop before Start fails, a second Start fails, Start after a completed Stop succeeds, and a Stop that no connection releases leaves the server refusing to start |
| Hosts.NewHost | MultiClip/Network/Host.cs:36-42 | A null endpoint, user name or machine name raises ArgumentNullException; otherwise the host holds its arguments |
| Hosts.IdentityIsMachineGuid | MultiClip/Network/Host.cs:44-52 | Hosts are equal exactly when their GUIDs are; equality is an equivalence and equal hosts hash alike |
| Hosts.SameHost | MultiClip/Network/Host.cs:44-52 | Hosts are equal exactly when their machine GUIDs are, whatever their endpoints, and equal hosts hash alike |
| Hosts.Loopback | MultiClip/Network/Host.cs:34 | The local machine's GUID at 127.0.0.1 on port 9583 |
| Hosts.SendAsync | MultiClip/Network/Host.cs:54-75 | A null request raises ArgumentNullException before anything is sent; otherwise the length-prefixed request is written and the length-prefixed response is decoded |
| Hosts.ReadReply | MultiClip/Network/Host.cs:69-72 | A reply whose length header is negative fails with an overflow; an empty stream gives the deserializer nothing to read |
| Hosts.FramedReplyReadBack | MultiClip/Network/Host.cs:69-72 | A length-prefixed reply is decoded from exactly its bytes |
| Lan.MaskBounds | MultiClip/Network/Lan.cs:142-146 | Masking a byte gives a range around it, fixed under a full mask byte and full under an empty one |
| Lan.IsValidGateway | MultiClip/Network/Lan.cs:107-113 | A gateway is invalid exactly when its first three bytes are 0 |
| Lan.MapToIPv4 | MultiClip/Network/Lan.cs:79 | An IPv4 address maps to itself |
| Lan.IsValidInterface | MultiClip/Network/Lan.cs:118-127 | A valid interface is up, wireless or Ethernet, and has a first gateway other than 0.0.0.0; such an interface whose first gateway is IPv6 or has a non-zero first byte is valid |
| Lan.AsValidGateway | MultiClip/Network/Lan.cs:78-80 | A gateway is kept exactly when its IPv4 form is valid |
| Lan.RangeStart | MultiClip/Network/Lan.cs:144 | Each byte is the gateway byte AND the mask byte |
| Lan.RangeEnd | MultiClip/Network/Lan.cs:145 | Each byte is the gateway byte OR the inverted mask byte |
| Lan.GatewayInRange | MultiClip/Network/Lan.cs:133-153 | The gateway lies within its range, byte by byte |
| Lan.GetValidAddresses | MultiClip/Network/Lan.cs:133-153 | The loop computes that range and enumerates it |
| Lan.FirstDifferenceFrom | MultiClip/Network/Lan.cs:165-172 | The first index from i where the addresses differ, or -1 when none does |
| Lan.FirstDifference | MultiClip/Network/Lan.cs:163-172 | The first differing index, or -1 exactly when the addresses are equal |
| Lan.FindTargetByte | MultiClip/Network/Lan.cs:163-172 | The loop finds that index |
| Lan.Sweep | MultiClip/Network/Lan.cs:185-190 | The swept addresses are the start with the target byte set to each value in turn |
| Lan.Span | MultiClip/Network/Lan.cs:185 | The sweep never passes 255 |
| Lan.Next | MultiClip/Network/Lan.cs:192-193 | The recursion restarts from the start with the target byte set to 255, or from all zeros with that byte 255 when the sweep was empty |
| Lan.SweepTargetByte | MultiClip/Network/Lan.cs:179-192 | The loop produces that sweep and that next address |
| Lan.AddressesBetween | MultiClip/Network/Lan.cs:158-194 | Equal bounds give no addresses; out of fuel with unequal bounds gives no result |
| Lan.GetAddressesBetween | MultiClip/Network/Lan.cs:158-194 | The method computes that enumeration |
| Lan.NextStaysDoomed | MultiClip/Network/Lan.cs:179-193 | Once the end byte at the first difference is below 255, every later step is in the same situation |
| Lan.DoomedNeverEnds | MultiClip/Network/Lan.cs:179-193 | In that situation the recursion never finishes |
| Lan.EndsOnlyAtFullByte | MultiClip/Network/Lan.cs:179-193 | A finished enumeration had 255 as the end byte at the first difference |
| Lan.AlignedBlockEnds | MultiClip/Network/Lan.cs:158-194 | For an octet-aligned block the enumeration ends, with 256 addresses per free byte, all inside the block |
| Lan.SlashTwentyFour | MultiClip/Network/Lan.cs:158-194 | A /24 gives exactly its 256 addresses in order |
| Lan.SlashSixteen | MultiClip/Network/Lan.cs:158-194 | A /16 gives 512 addresses, repeats a.b.255.0 and skips a.b.1.1 |
| Lan.SlashTwentyNeverEnds | MultiClip/Network/Lan.cs:158-194 | A /20 network never finishes |
| Lan.Candidates | MultiClip/Network/Lan.cs:85-93 | A mask with a zero first or second byte gives no candidates; otherwise the enumeration fails exactly when the address range does, and the candidates are exactly the enumerated addresses that are not gateways |
| Lan.AddUnlessGateway | MultiClip/Network/Lan.cs:91-98 | The loop appends the addresses that are not gateways, in order |
| Lan.AddCandidates | MultiClip/Network/Lan.cs:83-99 | Appends one pair's candidates |
| Lan.AddGatewayCandidates | MultiClip/Network/Lan.cs:81-100 | Appends the candidates of every gateway, in order |
| Lan.AddInterfaceCandidates | MultiClip/Network/Lan.cs:71-101 | Appends the candidates of every unicast address of the interface |
| Lan.GetAllPossibleHosts | MultiClip/Network/Lan.cs:58-105 | The loops compute the candidates of every valid interface, in order |
| Lan.PossibleHosts | MultiClip/Network/Lan.cs:58-105 | No valid interface gives no candidates; every candidate comes from a gateway and unicast mask of a valid interface and is not one of its gateways, and every such candidate is listed |
| Lan.FindNetworkDevices | MultiClip/Network/Lan.cs:18-51 | Fails exactly when the enumeration does; otherwise the devices are exactly the candidates other than 0.0.0.0 that answer a ping |
| Lan.DevicesAreAnsweringCandidates | MultiClip/Network/Lan.cs:18-51 | The devices are exactly the candidates other than 0.0.0.0 that answer a ping, in candidate order |
| Scanners.Replied | MultiClip/Network/LanScanner.cs:136-158 | A completed application ping answers with its response; any other exception it raises is a fault, never "unreachable" |
| Scanners.AppHost | MultiClip/Network/LanScanner.cs:136-158 | A probe gives a host exactly when the instance answered with a GUID other than the local one; the host is at the probed address on the application port, with the answer's names; an unreachable or faulted probe gives none |
| Scanners.AddAllFacts | MultiClip/Network/LanScanner.cs:161-166 | Adding hosts keeps the existing ones in front and adds only hosts with new GUIDs, from the added list; the GUID set is the union, and distinct GUIDs stay distinct |
| Scanners.DistinctByGuid | MultiClip/Network/LanScanner.cs:161-166 | De-duplication leaves one host per GUID of the input, the first of its GUID in the list |
| Scanners.FirstKept | MultiClip/Network/LanScanner.cs:164-165 | Every host kept was the first of its GUID |
| Scanners.FirstFault | MultiClip/Network/LanScanner.cs:161 | A fault raised by one of the probes, or none exactly when no probe faulted |
| Scanners.ProbedGuids | MultiClip/Network/LanScanner.cs:161-166 | The GUIDs of the hosts probed are those of the answers, less the local GUID |
| Scanners.FindAppHosts | MultiClip/Network/LanScanner.cs:129-167 | Fails exactly when some probe faulted; otherwise the hosts have distinct GUIDs, which are exactly the answered GUIDs other than the local one |
| Scanners.AppHostsFound | MultiClip/Network/LanScanner.cs:129-167 | The hosts found have distinct GUIDs, none of them local, and each came from probing one of the devices |
| Scanners.NegativeReplyLengthFaults | MultiClip/Network/LanScanner.cs:153 | A device whose reply has a negative length header faults with an overflow, which the socket and time-out filter does not catch, so the whole search fails |
| Scanners.FaultAmongDevices | MultiClip/Network/LanScanner.cs:176-184 | A device that answered the ICMP ping faults exactly when an answering candidate other than 0.0.0.0 faults |
| Scanners.Discover | MultiClip/Network/LanScanner.cs:173-197 | The process crashes exactly when the address enumeration never ends; otherwise the scan fails exactly when an answering candidate's probe faults; otherwise the hosts have distinct GUIDs, none of them local |
| Scanners.DiscoveredHostsAnswered | MultiClip/Network/LanScanner.cs:176-184 | Every discovered host is at a candidate address that answered both the ICMP ping and the application ping with the host's GUID |
| Scanners.RemoveDropsAll | MultiClip/Network/LanScanner.cs:204-207 | Removing missing hosts one at a time equals filtering them all out, when the GUIDs are distinct |
| Scanners.NothingMissing | MultiClip/Network/LanScanner.cs:201-207 | Filtering out no hosts changes nothing |
| Scanners.MissingIsNotActive | MultiClip/Network/LanScanner.cs:201-207 | Dropping the missing hosts keeps exactly the hosts that are still active |
| Scanners.KeptDistinct | MultiClip/Network/LanScanner.cs:201-207 | Hosts kept from a list with distinct GUIDs still have distinct GUIDs |
| Scanners.IndexOfGuid | MultiClip/Network/LanScanner.cs:206 | The first position of a host with the GUID, or -1 exactly when there is none |
| Scanners.Remove | MultiClip/Network/LanScanner.cs:206 | `Remove` deletes the first host equal to the given one, that is the first with its GUID, and changes nothing when there is none |
| Scanners.Reconciled | MultiClip/Network/LanScanner.cs:199-214 | The reconciled list has the GUIDs of the active hosts; the retained hosts keep their objects and order in front, and the hosts after them are active ones whose GUIDs were not listed |
| Scanners.ReconciledHosts | MultiClip/Network/LanScanner.cs:199-214 | The same facts, stated on keeping the active hosts and then appending the new ones |
| Scanners.LanScanner.constructor | MultiClip/Network/LanScanner.cs:46-58 | The scanner starts with no hosts and the requested setting |
| Scanners.LanScanner.SetBackgroundScanning | MultiClip/Network/LanScanner.cs:72-91 | Setting the current value changes nothing; otherwise the setting changes and the hosts do not |
| Scanners.LanScanner.UpdateHosts | MultiClip/Network/LanScanner.cs:169-215 | After a crash the process is gone; a failed discovery leaves the scanner unchanged; otherwise the hosts are reconciled with the discovered ones |
| Scanners.LanScanner.RemoveHosts | MultiClip/Network/LanScanner.cs:201-207 | The loop removes every missing host |
| Scanners.LanScanner.AddHosts | MultiClip/Network/LanScanner.cs:208-213 | The loop appends each active host whose GUID is not yet listed, checked against the list as it grows |

## Left out

- Sockets, TCP connect, threads, `async` scheduling and the dispatcher are not modelled. Streams are sequences of arriving chunks, and the accept loop serves a given list of connections. Left out with them:
  - `NetUtils.ConnectAsync` and its treatment of faulted tasks;
  - `Dispatchers.InvokeRepeating`;
  - `LanScanner.ScanningLoop` and `ScanNetworkAsync`;
  - the thread start in `EnableBackgroundScanning`;
  - the join in `DisableBackgroundScanning`, which happens before the loop flag is cleared, so disabling waits for a loop that cannot stop;
  - the locks.
- Scanners.LanScanner.SetBackgroundScanning: models the flag and the thread handle only, not the thread's effect.
- The `...Async` variants in NetUtils (`ReadInt32Async`, `WriteInt32Async`, `ReadAsync`, `WriteAsync`) behave like the synchronous ones on the modelled stream. They are not modelled separately.
- The `delayMs` parameter of the retry helpers is never used by the code, so retries follow each other without a wait; it is dropped. The one-second pause before the fallback clipboard read is not modelled.
- The OS clipboard is outside the model, as are `ClipboardHelper`, `ClipboardFormatListener` and the native calls. Reads and writes enter as functions from the attempt number to a result.
- DEFLATE is not modelled. The codec is a parameter with three laws:
  - inflating a deflated buffer at its size gives it back;
  - inflation produces the requested size;
  - deflation is injective.

  The array `Inflate` issues a single `Read`, which may fill only part of the output. The laws assume it fills all of it.
- BSON serialization is not modelled. It enters as a serializer parameter with a round-trip law, including the `[JsonIgnore]` sender GUID. The law is stronger than what Json.NET's BSON writer and reader do; the next lines say where.
- Messages.ClientReadsResponse: assumes request and response bytes below 2^31. A larger length would not fit the 32-bit header.
- Messages.ClientReadsResponse, ClipboardMessages.NotifiedSnapshotArrives: the time stamps `ClipboardStateInfo.DateTime` and `ClipboardStateResponse.DateTime` travel as BSON dates, which count whole milliseconds and are read back as local time. The model's time stamps are ticks and arrive unchanged, so the read-back response agrees with the sent one except that its times are truncated to the millisecond.
- Messages.ClientReadsResponse: `ClipboardInfoRequest` has a get-only `KnownStateGuids` and a constructor parameter named `knownStates`. Json.NET's constructor binding matches parameters to properties by name, so the server most likely receives no list and lists every describable snapshot, as `AllSummarisedWithoutList` states for a request without one. The model assumes the list arrives.
- Lan.AddressesBetween: runs with a fuel bound in place of unbounded recursion. Running out of fuel stands for the stack overflow the code meets on masks that are not octet-aligned; `Scanners.Discover` reports it as `Crashed`, which ends the process, and the state of the other threads is not modelled.
- The `address != localAddress` test in `GetAllPossibleHosts` compares object references and removes nothing, so it is not modelled. The `AddressFamily` test is always true after `MapToIPv4`.
- `Debug` output, logging and the `#if DEBUG` branches (the local-GUID check skipped in debug builds, the error notification) are left out. The model follows release builds.
- `DateTime.Now` (the view models' time stamps) and `Guid.NewGuid` (the one-argument `ClipboardState` constructor) are not modelled. Identifiers and times are parameters.
- Floating point is not modelled in the rgba alpha `(byte)(a * 255)`, which is a parameter of `ColorEnv`. The luminance threshold for black text, `(R + G + B) · A / 255 / 3 ≥ 127`, is exact for its range and is written in integers as (R + G + B) · A ≥ 127 · 255 · 3 (`IsBright`). The compression ratio test is written in integers too, and is not exact (next line).
- ClipboardItems.FromBuffer, ClipboardItems.FromPointer: the ratio test `(float)original / deflated > 1.5f` is modelled as 2·original > 3·deflated. The two differ when the original length exceeds 2^24 and the ratio is within float rounding of 1.5. For example, with original = 16777217 and deflated = 11184811, the float quotient rounds to 1.5, so the code keeps the buffer raw, while the model compresses it.
- `ColorTranslator.FromHtml` and the `char.IsLetter` / `IsLetterOrDigit` classification are parameters of `ColorEnv`.
- `GetHashCode` of items and snapshots is not modelled. The host hash is modelled only as "depends on the GUID".
- ClipboardItems.ItemObject.GetDataBuffer: the weak reference to the inflated buffer is a cache that the collector may clear at any time (`Reclaim`). The model does not say when.
- ClipboardManagers.ClipboardManager.GetState: the weakly referenced current snapshot may disappear at any time (`Collect`). The model does not say when.
- `ClipboardParser.GetBytes` (PNG encoding) and `ImageFromBytes` are not modelled. `BitmapFrame.Create` is not modelled either: the DIB path stops at the bitmap file bytes.
- The `ShellIdList` branch of `ParseFileDrop` is not modelled. It is unreachable, since `CanParse` admits only HDrop.
- The `OemText` branch of `ParseText` is not modelled, for the same reason.
- `OnPasteStateClicked` is not modelled. It combines `MarkCurrentViewModel` and `SetStateAsync`, which are modelled, with input simulation, which is not.
- `AppState` is not modelled as a global. The local history, the local snapshots served to peers and the remote hosts are explicit parameters or fields.
- Null strings and null lists are not modelled except where the code tests for them: the constructors, the known-ids list and `SendAsync`.
- Servers.Server.Stop: whether a client connects while Stop waits is a parameter. The serving of that last connection is not modelled, nor a `TcpListener.Stop` that would wake the accept, since the code calls it only after the join.
- Stdlib.MemCmpRange: the count and index are natural numbers, and a range past the end of the arrays is excluded by the precondition. The code passes such values to the native `memcmp`, where they are undefined behaviour, so the model does not describe them. Stdlib.MemCmpPrefix takes a natural count for the same reason.
- ColorParser.TryParse: the prefix, suffix and parenthesis tests compare code units ordinally. The code's `StartsWith`, `EndsWith` and `IndexOf` are culture-sensitive, so they also ignore characters such as the soft hyphen; the model does not.
