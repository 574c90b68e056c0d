# A verified model of the MUA message codec and mailbox

This project models the core of a small Java mail user agent in Dafny: the
values a message is made of, how they are validated, composed, parsed,
rendered to their stored text and compared, and the in-memory mailbox that
holds the messages.

- `results.dfy` (`Results`): exceptions become values. `Result` is `Ok(value)`
  or `Err(kind)`, where the kind is IllegalArgument, IndexOutOfBounds or
  IllegalState.
- `strings.dfy` (`Strings`): the `java.lang.String` operations the code relies
  on, over `seq<char>`: `compareTo`, `startsWith`, `contains`, `String.join`,
  `split` around one character (limit 0, trailing empty strings dropped),
  `hashCode` in 32-bit arithmetic, and the ASCII test.
- `dates.dfy` (`Dates`): the stored date as an instant and an offset, with
  its total order.
- `encoding.dfy` (`Encoding`): a `Codec` record holds the collaborators whose
  code is not part of this model: Base64, the RFC 2047 encoded word, the
  address and date decoders, and the two date formatters. The ghost
  predicate `Sound` states what is assumed of them. It appears only as a
  precondition of the lemmas that need it.
- `address.dfy` (`Addresses`): an address of display name, local part and
  domain. Validation, equality and order on local and domain only, the hash
  code, and the rendering with its quoting heuristic and its counting loop.
- `headers.dfy` (`Headers`): the five header kinds (From, To, Subject, Date,
  Content-Type) as one datatype. Each has its factories, type, value,
  rendering, stored form, order and equality. The To header's loops are
  methods proved against their functions.
- `messages.dfy` (`Messages`):
  - parts and messages, with their invariants and constructors;
  - the header-map filling loop;
  - the compose policy (one part, or envelope, text and html parts);
  - parse routing from decoded fragments to headers and parts;
  - the text rendering with its `--frontier` boundaries;
  - equality.
- `mailbox.dfy` (`Mailboxes`): the mailbox as a class. Its entry list is a
  `seq` field that the methods reassign. It has bounds-checked read and
  delete, the four sorts (ascending or descending), and add-then-sort.

The sorts are specified by a stable insertion sort over the entry list. It
is proved to keep the same multiset of entries, to leave the list ordered by
the chosen key, and to be idempotent.

### Behaviour taken from the code

Where the code and the documented intent differ, the model follows the code:

- `ContentHeader.from` accepts charset `utf-8` or `us-ascii` for
  `multipart/alternative` as well as the empty charset.
- A To header with no recipients can be built, but rendering it reads index
  -1. `JoinedTexts` fails with IndexOutOfBounds.
- A display name ending in a space makes `Address.toString` read one
  character past the end. `Addresses.Text` fails with IndexOutOfBounds, and
  so does every rendering that contains the address.
- `SubjectHeader.equals` compares its decoded subject with the other
  header's encoded form. Two distinct headers holding the same non-ASCII
  subject are therefore not equal, for example the same entry parsed twice
  (`Headers.DistinctForeignSubjectsDiffer`). A header is still equal to itself
  as an object, through the `obj == this` shortcut.
- No blank line is written between the Date line and the first part. The
  blank line that follows a part's Content-Type comes from the part's own
  rendering.
- In compose, the envelope part is built from `partsHeaders[0]` and carries
  the placeholder sentence as its body.
- A From header built from a list with a non-ASCII display name can be
  constructed. It cannot be stored, because its text is not ASCII
  (`Headers.ToSequence` fails).

## Model

| member | source | states |
|---|---|---|
| Strings.Compare | mua/Address.java:185 | String.compareTo is 0 exactly when the two strings are equal |
| Strings.CompareAntisymmetric | mua/Address.java:185 | swapping the strings negates compareTo |
| Strings.CompareTransitive | mua/Address.java:185 | "at most" under compareTo is transitive |
| Strings.ComparePrefix | mua/Address.java:185 | a proper prefix compares below the longer string |
| Strings.PiecesJoin | mua/Message.java:240 | joining the pieces of a split with the separator gives the text back |
| Strings.SplitTwo | mua/Message.java:240 | a separator-free head, the separator and a non-empty separator-free tail split into exactly head and tail |
| Strings.JoinByTerminated | mua/RecipientHeader.java:163-166 | every element but the last followed by the separator, then the last, is the join |
| Strings.Wrap32 | mua/Address.java:210-215 | int arithmetic stays within the signed 32-bit range |
| Dates.Compare | mua/DateHeader.java:127-130 | the date order is 0 exactly on equal dates; only its sign is modelled, as -1, 0 or 1 |
| Dates.CompareIsTotalOrder | mua/DateHeader.java:127-130 | the date order is antisymmetric and transitive |
| Addresses.Make | mua/Address.java:69-82 | construction succeeds iff local and domain are each a non-empty run of letters, digits and the listed marks; otherwise IllegalArgument; the address holds the given strings |
| Addresses.ValidPartIsAscii | mua/Address.java:71-78 | a valid local part or domain is ASCII |
| Addresses.FromParts | mua/Address.java:112-122 | succeeds iff there are exactly three parts with valid local and domain; the fields are display, local, domain in that order |
| Addresses.FromText | mua/Address.java:146-153 | non-ASCII text fails with IllegalArgument; an empty decoded list or a first address of fewer than three parts fails with IndexOutOfBounds; otherwise the result is Address.from on the first three parts of the first decoded address |
| Addresses.Compare | mua/Address.java:183-190 | the order is 0 exactly when local and domain are equal, so the display name is ignored |
| Addresses.CompareAntisymmetric | mua/Address.java:183-190 | swapping the addresses negates the order |
| Addresses.CompareTransitive | mua/Address.java:183-190 | the address order is transitive |
| Addresses.CompareRespectsEqual | mua/Address.java:192-198 | addresses equal by local and domain compare alike against any third address |
| Addresses.HashAgreesWithEqual | mua/Address.java:210-215 | equal addresses have equal hash codes |
| Addresses.QuotedIffTwoSeparators | mua/Address.java:221-233 | the display name is quoted iff it has two spaces each followed by a non-space |
| Addresses.TextShape | mua/Address.java:217-239 | rendering is `local@domain` without a display name, a failure when the name ends in a space, else the name (quoted iff two separators) and ` <local@domain>` |
| Addresses.TextIsAscii | mua/Address.java:206-208 | a valid address with an ASCII display name renders to ASCII |
| Addresses.Render | mua/Address.java:217-239 | the counting loop computes exactly the rendering of TextShape, failing where it fails |
| Headers.TypeIsUnique | mua/Header.java:12-16 | two headers have the same type string iff they are of the same kind |
| Headers.ContentOf | mua/ContentHeader.java:71-85 | fails unless the kind is one of the three; accepts utf-8 and us-ascii for every kind and the empty charset only for multipart; any other charset fails |
| Headers.FromOfParts | mua/FromHeader.java:85-92 | succeeds iff the three address parts are valid; the sender is the address built from them |
| Headers.FromOfText | mua/FromHeader.java:61-67 | non-ASCII text fails before parsing; otherwise it succeeds exactly when Address.from does, holding that address |
| Headers.RecipientsOf | mua/RecipientHeader.java:81-88 | succeeds iff every inner list is three valid parts; one address per list, in order |
| Headers.RecipientsFrom | mua/RecipientHeader.java:81-88 | the filling loop yields exactly RecipientsOf |
| Headers.RecipientsOfText | mua/RecipientHeader.java:98-100 | the decoded address lists go through RecipientsOf; undecodable text fails |
| Headers.SubjectOfText | mua/SubjectHeader.java:56-64 | the empty subject fails; text with the encoded-word prefix is stored decoded (non-ASCII such text fails); any other text is stored verbatim |
| Headers.SubjectOfSequence | mua/SubjectHeader.java:75-84 | fails iff empty; stored decoded iff it starts with the prefix, verbatim otherwise |
| Headers.SubjectFactoriesAgree | mua/SubjectHeader.java:56-84 | on ASCII text both factories build the same header |
| Headers.EncodedSubject | mua/SubjectHeader.java:94-99 | getSubject is the encoded word iff the subject is non-ASCII, the subject unchanged otherwise |
| Headers.EncodedSubjectIsAscii | mua/SubjectHeader.java:94-99 | getSubject is always ASCII |
| Headers.SubjectRoundTrip | mua/SubjectHeader.java:56-99 | a subject that is non-ASCII or lacks the prefix comes back unchanged from from(getSubject()) |
| Headers.DateOfSequence | mua/DateHeader.java:52-61 | fails with IllegalArgument exactly when the text does not decode to a date; otherwise holds that date |
| Headers.DateOfText | mua/DateHeader.java:88-101 | empty or non-ASCII text fails; otherwise as from(ASCIICharSequence); a result holds the decoded date |
| Headers.JoinedTexts | mua/RecipientHeader.java:158-168 | rendering the recipients fails with IndexOutOfBounds iff the list is empty or some address fails to render |
| Headers.JoinRendered | mua/RecipientHeader.java:107-115 | the append loop of getValue and toString yields exactly JoinedTexts |
| Headers.Value | mua/Header.java:53-63 | getValue fails only for a From or To header whose addresses fail to render; otherwise it is the sender's rendering, the recipients joined by newlines, the subject, the ISO offset date, or the Content-Type value |
| Headers.ContentValueIdentifies | mua/ContentHeader.java:110-116 | two valid Content-Type values are equal iff the kinds are equal and, outside multipart, the charsets too |
| Headers.ContentTextMultipart | mua/ContentHeader.java:145-148 | multipart ignores the charset, opens with the MIME-Version line and `Content-Type: multipart/alternative`, and ends with `; boundary=frontier` |
| Headers.ContentTextHead | mua/ContentHeader.java:149-150 | other kinds render `Content-Type: kind; charset="cs"` first |
| Headers.ContentTextBase64 | mua/ContentHeader.java:151-153 | the transfer-encoding line ends the rendering iff the charset is not us-ascii |
| Headers.RenderAgreesWithValue | mua/Header.java:45-63 | the rendering is the type, `: ` and the value (recipients joined by `, `, subject encoded) and fails exactly when the value does |
| Headers.ContentTextNamesType | mua/ContentHeader.java:143-153 | both branches of the Content-Type rendering contain `Content-Type: ` |
| Headers.RenderNamesType | mua/Header.java:45-51 | every rendering contains its type followed by `: ` |
| Headers.ToSequence | mua/Header.java:45-51 | the stored form is the rendering, and exists iff the rendering succeeds and is ASCII |
| Headers.ContentTextIsAscii | mua/ContentHeader.java:118-121 | every valid Content-Type renders to ASCII |
| Headers.RecipientsTextIsAscii | mua/RecipientHeader.java:117-120 | valid recipients with ASCII display names render to ASCII |
| Headers.HeaderIsStorable | mua/Header.java:18-19 | a valid header with ASCII display names that renders is storable as its rendering |
| Headers.LexCompare | mua/RecipientHeader.java:136-140 | the lexicographic order is 0 exactly on element-wise equal lists |
| Headers.LexAntisymmetric | mua/RecipientHeader.java:136-140 | swapping the lists negates the order |
| Headers.LexTransitive | mua/RecipientHeader.java:136-140 | the lexicographic order is transitive |
| Headers.LexFirstMismatch | mua/RecipientHeader.java:136-140 | the first unequal pair of addresses decides |
| Headers.LexProperPrefix | mua/RecipientHeader.java:136-140 | a proper prefix sorts first |
| Headers.LexRespectsEqual | mua/RecipientHeader.java:147-156 | equal lists compare alike against any third list |
| Headers.Compare | mua/FromHeader.java:118-121 | compareTo of From, To, Subject and Date is 0 exactly on equal senders, equal lists, equal subjects or equal dates |
| Headers.CompareIsTotalPreorder | mua/FromHeader.java:118-121 | each header order is antisymmetric in sign and transitive |
| Headers.EqualsAgreesWithCompare | mua/FromHeader.java:127-133 | equals holds iff compareTo is 0 (for Subject, when the other subject is ASCII) |
| Headers.DistinctForeignSubjectsDiffer | mua/SubjectHeader.java:126-131 | two distinct headers holding the same non-ASCII subject are not equal |
| Headers.EqualsRespectsCompare | mua/RecipientHeader.java:147-156 | equal From or To headers compare alike against any third header |
| Messages.CollectKeys | mua/Message.java:101-104 | a type is in the filled map iff it was there or some header has that type |
| Messages.CollectKeeps | mua/Message.java:101-104 | a type no header has keeps its entry |
| Messages.CollectLast | mua/Message.java:101-104 | the map keeps the last header given for each type |
| Messages.CollectWellKeyed | mua/Message.java:101-104 | every header is filed under its own type |
| Messages.CollectHeaders | mua/Message.java:286-289 | the put loop fills exactly the specified map |
| Messages.PartOf | mua/Message.java:96-111 | a part exists iff the header list is non-empty and holds a Content-Type; the failure is IllegalArgument; the part is valid and keeps its body |
| Messages.NewPart | mua/Message.java:96-111 | the constructor's loop yields exactly PartOf |
| Messages.PartTextShape | mua/Message.java:146-157 | a part renders as its Content-Type, a blank line, then the body, Base64-encoded (and recoverable) iff non-ASCII or text/html |
| Messages.PartTextIsAscii | mua/Message.java:146-157 | a part with a valid Content-Type renders to ASCII |
| Messages.MessageOf | mua/Message.java:186-199 | a message exists iff From, To, Subject and Date are present and every part has a Content-Type |
| Messages.EssentialIffKinds | mua/Message.java:331-336 | the filled map is essential iff a From, a To, a Subject and a Date header were given |
| Messages.ComposeParts | mua/Message.java:295-308 | every composed part is valid |
| Messages.BuildParts | mua/Message.java:295-308 | the part-building steps yield exactly ComposeParts |
| Messages.ComposeMessage | mua/Message.java:283-310 | compose as run, loops included, yields exactly Compose |
| Messages.ComposeIsValid | mua/Message.java:283-310 | a composed message is valid and holds the filled header map |
| Messages.ComposeSinglePart | mua/Message.java:298-299 | an empty second body gives exactly one part: the first part headers with the first body |
| Messages.ComposeThreeParts | mua/Message.java:300-308 | two non-empty bodies give exactly envelope (placeholder), text (body 1) and html (body 2), in that order |
| Messages.ComposeHtmlOnly | mua/Message.java:300-308 | an empty first body with a non-empty second gives only the html part |
| Messages.ComposeFailures | mua/Message.java:286-297 | missing essentials fail with IllegalArgument, fewer than two bodies with IndexOutOfBounds, and three Content-Type part lists always compose |
| Messages.ParseFragments | mua/Message.java:212-265 | the nested routing loops yield exactly Parse |
| Messages.RouteByName | mua/Message.java:222-237 | from, to, subject and date put the header built from the value under From, To, Subject and Date; a failing factory fails the routing |
| Messages.RouteIgnoresOtherNames | mua/Message.java:258-259 | raw headers with any other name change nothing |
| Messages.RouteMultipart | mua/Message.java:239-245 | multipart/alternative adds a part header with the empty charset and leaves the body undecoded |
| Messages.CharsetParameter | mua/Message.java:248 | the rendered charset parameter mentions utf-8 iff the charset is utf-8 |
| Messages.ContentValueSplits | mua/Message.java:240-241 | a rendered Content-Type value splits at `;` into the kind and the charset parameter |
| Messages.RouteContentRoundTrip | mua/Message.java:239-256 | routing a rendered text Content-Type recovers kind and charset, decoding the body iff utf-8 |
| Messages.RouteKeepsShape | mua/Message.java:222-260 | one routed raw header keeps the header map well keyed and adds at most a Content-Type part header |
| Messages.RouteHeadersKeepsShape | mua/Message.java:221-261 | routing one fragment keeps the header map well keyed and adds only Content-Type part headers |
| Messages.RouteFragmentsKeepsShape | mua/Message.java:217-263 | every routed part is valid and holds only a Content-Type |
| Messages.ParseIsValid | mua/Message.java:262-264 | a parsed message is valid and each part holds exactly a Content-Type |
| Messages.RenderMessage | mua/Message.java:430-449 | the rendering loop yields exactly MessageText |
| Messages.BodyShape | mua/Message.java:440-446 | two or more parts render as each but the last followed by the boundary, then the last and the closing boundary |
| Messages.MessageTextShape | mua/Message.java:437-447 | the rendering fails only where the header lines fail; with two or more parts it is the header lines, each part but the last followed by the boundary, then the last part and the closing boundary |
| Messages.MessageSequence | mua/Message.java:344-346 | the stored form exists iff the rendering succeeds and is ASCII, and is then the rendering; a failed rendering passes its failure on, and a non-ASCII one fails with IllegalArgument |
| Messages.MessageIsStorable | mua/Message.java:344-346 | a message with valid, ASCII-named headers that renders is stored as its rendering |
| Messages.BodyIsAscii | mua/Message.java:437-447 | the parts with their boundaries render to ASCII |
| Messages.HeaderEqualsItself | mua/Message.java:422-428 | every header other than a non-ASCII Subject equals itself |
| Messages.MessageEqualsItself | mua/Message.java:422-428 | a message without non-ASCII subjects equals itself |
| Messages.DistinctForeignSubjectMessagesDiffer | mua/Message.java:422-428 | two distinct messages holding the same non-ASCII subject are not equal |
| Mailboxes.Key | mua/Message.java:354-394 | in a valid message the four getters return a Date, From, To and Subject header |
| Mailboxes.ValidIsKeyed | mua/Message.java:186-199 | a valid message holds a Date, From, To and Subject header, each filed under its own type |
| Mailboxes.CmpIsTotalPreorder | mua/Mailbox.java:142-157 | each comparator, and its reversal, is antisymmetric in sign and transitive |
| Mailboxes.Insert | mua/Mailbox.java:142-157 | insertion makes the list one longer, keeps every message keyed, and starts with the new entry or the old first one |
| Mailboxes.InsertAt | mua/Mailbox.java:142-157 | insertion cuts the list at one position and puts the new entry there, the others keeping their order |
| Mailboxes.InsertPermutes | mua/Mailbox.java:142-157 | insertion adds exactly the one entry: the old multiset plus the new entry |
| Mailboxes.Sort | mua/Mailbox.java:142-232 | sorting keeps the length and keeps every message keyed |
| Mailboxes.SortPermutes | mua/Mailbox.java:142-232 | sorting permutes the entries: the same multiset |
| Mailboxes.PermutedKeepsValid | mua/Mailbox.java:142-232 | a reordering of valid messages holds only valid messages |
| Mailboxes.InsertSorted | mua/Mailbox.java:142-157 | inserting into an ordered list keeps it ordered |
| Mailboxes.SortIsSorted | mua/Mailbox.java:142-232 | every sort leaves each neighbour pair in order |
| Mailboxes.ReversedIsNonIncreasing | mua/Mailbox.java:152-156 | sorted with the reversed comparator means non-increasing by the key |
| Mailboxes.SortedPairwise | mua/Mailbox.java:142-232 | an ordered list has every earlier entry at most every later one |
| Mailboxes.SortKeepsSorted | mua/Mailbox.java:142-232 | sorting an ordered list leaves it unchanged |
| Mailboxes.SortIsIdempotent | mua/Mailbox.java:142-232 | sorting twice is sorting once |
| Mailboxes.RemoveAt | mua/Mailbox.java:263 | removing index i drops exactly that entry, shifts the later ones down and keeps the rest in order |
| Mailboxes.Mailbox.constructor | mua/Mailbox.java:88-96 | the mailbox holds the loaded entries in their order |
| Mailboxes.Mailbox.Size | mua/Mailbox.java:113-115 | size is the number of entries and changes nothing |
| Mailboxes.Mailbox.Read | mua/Mailbox.java:127-132 | read succeeds iff 0 <= i < size, giving the message at i; otherwise IllegalArgument; nothing changes |
| Mailboxes.Mailbox.SortBy | mua/Mailbox.java:142-232 | the list becomes its sort: the same entries, ordered by the key, reversed on request |
| Mailboxes.Mailbox.DateOrder | mua/Mailbox.java:142-157 | the list becomes its sort by date |
| Mailboxes.Mailbox.SenderOrder | mua/Mailbox.java:167-182 | the list becomes its sort by sender |
| Mailboxes.Mailbox.RecipientsOrder | mua/Mailbox.java:192-207 | the list becomes its sort by recipients |
| Mailboxes.Mailbox.SubjectOrder | mua/Mailbox.java:217-232 | the list becomes its sort by subject |
| Mailboxes.Mailbox.Delete | mua/Mailbox.java:255-265 | an index out of range fails with IllegalArgument and changes nothing; a failed storage deletion gives false and changes nothing; otherwise exactly the entry at i is removed and the answer is true |
| Mailboxes.Added | mua/Mailbox.java:277-281 | adding then sorting by date gives the old entries plus the new one (as a multiset), all valid, ordered by date with the latest first |
| Mailboxes.Mailbox.AddMessage | mua/Mailbox.java:277-281 | a message without a stored form fails and changes nothing; otherwise the list gains exactly the new entry and ends sorted by date, latest first |

## Left out

- Strings.Compare: orders strings by Unicode code point, where `String.compareTo` compares UTF-16 code units. The two agree except when a character above U+FFFF meets one in U+E000..U+FFFF at the first difference. There the sign is reversed, so subjects holding such characters can be ordered differently by `SubjectOrder`.

- Decoding a stored entry into fragments (`EntryEncoding.decode`) is not part of this model. Parsing starts from the decoded fragments, and the whole render-then-parse round trip is not stated. Only its Content-Type step is (`Messages.RouteContentRoundTrip`).
- Base64, the encoded word, the address and date decoders and the `java.time` formatters are parameters (`Encoding.Codec`). Their round trips and ASCII output are assumed as `Encoding.Sound`.
- Encoding.Codec: `decode` and `decodeWord` are total functions, so the model takes Base64 decoding and encoded-word decoding never to throw. A body or an encoded word that the decoder would reject is decoded to some string. `Headers.SubjectOfText`, `Headers.SubjectOfSequence` and `Messages.RouteContent` therefore do not model that failure. Only the address and date decoders can fail (`None`).
- `ASCIICharSequence.of` is taken to fail with IllegalArgument on non-ASCII text.
- Dates.Compare: only the sign of `ChronoZonedDateTime.compareTo` is modelled. Java returns a difference of seconds or nanoseconds, and the model returns -1, 0 or 1. Every caller uses only the sign.
- `LexSort` is not part of this model. `Headers.LexCompare` is standard lexicographic order over the Address order, giving -1 or 1 for a proper prefix. Only the sign of a comparison is used.
- `ZonedDateTime` is modelled as an instant and an offset, ordered by instant and then offset. Time zones other than a fixed offset are not modelled.
- `ContentHeader.toString` compares strings by identity (`==`). The model compares values. A `multipart/alternative` kind taken from `split(";")` while parsing is not the interned literal, so the Java code renders it through the charset branch, where the model renders the multipart lines.
- The `obj == this` shortcut in the `equals` methods is not modelled. `Headers.Equals` is the field comparison, which is why `Headers.DistinctForeignSubjectsDiffer` holds in the model.
- `hashCode` is modelled for Address only. The other hash codes just combine their fields' hash codes.
- `null` arguments and the `NullPointerException`s they raise are not modelled. Dafny values are never null.
- The getters' IllegalStateException for a missing essential header is not modelled: every valid message has all four (`Mailboxes.Key`).
- `DateHeader.from(ZonedDateTime)` and the getters (`getSender`, `getRecipients`, `getDate`, `getValue` of Subject) are the datatype constructors and fields themselves.
- Unmodifiable views (`getMessages`, `getHeaders`, `getParts`, the iterators) are not modelled. The fields are read directly, and reading cannot change them.
- `Address.toSequence` is not modelled. It is meant for saving an address to disk, but nothing in the program calls it.
- `Mailbox.toString` is not modelled. It is console output only.
- `Mailboxes.Mailbox.constructor`: reading the box from disk and parsing each entry are disk I/O. The entries arrive already paired with their messages. The mailbox name and the box reference are not modelled.
- `Mailboxes.Mailbox.Delete`: deleting the file is external. Its outcome is the parameter `storageDeleted`.
- `Mailboxes.Mailbox.AddMessage`: storing the text is external. The storage entry it returns is the parameter `entry`.
- `Mailboxes.Sort`: stability is built into the definition, which inserts each entry before the later ones it ties with. It is not stated as a separate lemma.
- `App.java` and the `clients` programs are console front ends and are not part of this model.
