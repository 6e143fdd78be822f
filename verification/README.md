# What this project models

The part of the repository that keeps data structures in agreement by hand, as Dafny
classes, functions and lemmas:

- **CMarkupSTL** (`libcomm`), an XML document editor. It keeps the document text and, beside
  it, an array of positions with four offsets and three links per element. Every edit splices
  the text and repairs the array in place, instead of parsing again. The main result is that
  the array stays what parsing the text again would give, for every run of calls.
- **Base64**: the wrapped codec of the same class and the flat codec of `libcomm`, against
  section 4 of RFC 4648, with the line breaks of section 6.8 of RFC 2045.
- **CTStat** (`ServerFrameWork`), counters in a fixed pool: bucket chains, a free list and
  value slots, linked by integer handles, with the six policies.
- **list.h**, the intrusive circular list.
- **CLoad**, load counted in two grids that change roles.

Texts are strings without a zero character; the end of a text is its length. Integers are
unbounded. The size of a text, an array or a pool is a parameter where the source has a
constant.

## Map

| files | contents |
|---|---|
| `Scanner`, `ScanLoops`, `Locality` | tokens and nodes as functions, the loops that compute them, and why a reading depends only on the text it reads |
| `Parser`, `ParserProofs`, `RoundTrip`, `Parsed`, `TagForms` | the parser as a function from text to trees; it finds exactly the well-formed trees; when it comes to an end; what nodes and tags look like |
| `Index`, `Walk`, `Order` | trees in the position array, contexts, the walk of `x_Adjust`, document order |
| `Building`, `ParseLoop` | how the parser fills the array |
| `Layout`, `Gaps`, `Edits`, `Repair`, `Surgery`, `Places`, `Growth`, `Sites`, `States` | text and array after each kind of edit, and that they describe the same tree |
| `Paths`, `Locating`, `NewElems`, `Removals`, `SubDocs`, `Attribs`, `Content`, `Values`, `Escaping` | the parts of the single operations |
| `MarkupDoc` | the class, method by method |
| `Calls`, `Editor` | calls as steps between documents, whole runs, reading back |
| `Limits` | calls after which array and text part, and the conditions |
| `Base64`, `Base64Decoding`, `Base64Buffers` | the codecs as functions, their inverses, and the loops over buffers |
| `PoolLayout`, `PoolView`, `PoolState`, `PoolSteps`, `PoolTravel`, `Pool`, `PoolRuns` | links and slots of the pool, what its objects mean, the class, whole runs |
| `Rings` | the list |
| `Windows`, `Load` | the windows of a run, and the class that counts in them |
| `Common` | what several of them share |

A document is a `prolog` and the text of a tree. Each element carries its own text: the start
tag, the text before its first child, the end tag, and the gap behind it. A place in the tree
is an element in a context, so an edit is a change at one place, and the array and the text
are each shown to follow it.

`State` says that text and array describe the same tree, and holds for every document.
`Tidy` adds that no tag stands in the text around the root and that every start tag is a name
with quoted attributes of different names; all calls keep it, and it is what makes
parsing again give the same tree.

## Model

| member | source | states |
|---|---|---|
| Editor.Replay | libcomm/src/base/MarkupSTL.cpp:1120-1844 | For every run of navigation and edit calls from the empty document whose calls have what they need: the trace of documents, where each call leads from one to the next as `Calls.Steps` says, and in every one of them text, array and position fit together and parsing the text again gives the tree in the array |
| Editor.Perform | libcomm/src/base/MarkupSTL.cpp:1120-1844 | One call, by case: tree, position and result after it in terms of those before; the document stays valid and goes on to agree with its text |
| Editor.Reparse | libcomm/src/base/MarkupSTL.cpp:46-88 | A document built by the editor and `SetDoc` of its text have the same prolog, the same tree up to numbering, and the same four offsets for every element |
| MarkupDoc.Markup.Agreement | libcomm/src/base/MarkupSTL.cpp:46-88 | A valid document with plain start tags and no tag in the text around the root agrees with what parsing its text again gives |
| Layout.AgreesExactly | libcomm/src/base/MarkupSTL.cpp:638-760 | A document text laid out from a tree parses to that tree exactly if the tree is well-formed and the prolog holds no tag |
| MarkupDoc.Markup.Adjust | libcomm/src/base/MarkupSTL.cpp:1433-1483 | The walk ends on every laid out tree; it moves both ends of exactly the elements after the given one (without its descendants if asked), the end tags of exactly the elements around it, and nothing else |
| MarkupDoc.Markup.Climb | libcomm/src/base/MarkupSTL.cpp:1465-1475 | The inner loop climbs to the next sibling of an enclosing element that is done, or stops at the element whose end tag comes next |
| Order.WalkOrder | libcomm/src/base/MarkupSTL.cpp:1433-1483 | The elements the walk moves as a whole are those behind the given one in document order, or those behind the last of its descendants |
| Order.AroundIs | libcomm/src/base/MarkupSTL.cpp:1433-1483 | The elements of which only the end is moved are the document entry and the elements that contain the given one |
| Walk.StepNext | libcomm/src/base/MarkupSTL.cpp:1461-1464 | A move to the next sibling takes exactly that element from what is left to do |
| Scanner.FindCharFirst | libcomm/src/base/MarkupSTL.cpp:762-778 | The search finds the first place of the character |
| Scanner.TokenExactly | libcomm/src/base/MarkupSTL.cpp:780-837 | A token: behind whitespace, a string up to the matching quote or the end, one special character, or a word up to the first whitespace or special character |
| TagForms.NodeExactly | libcomm/src/base/MarkupSTL.cpp:946-1046 | An instruction, a CDATA section or a comment goes to the first `?>`, `]]>` or `-->`, and is no node without one; an end tag is no node |
| TagForms.DocTypeSimple | libcomm/src/base/MarkupSTL.cpp:988-1008 | A document type without quotes and brackets goes to the first `>` |
| TagForms.DocTypeInner | libcomm/src/base/MarkupSTL.cpp:988-1008 | A `>` inside brackets or inside a string does not end a document type |
| TagForms.NextTagExactly | libcomm/src/base/MarkupSTL.cpp:659-694 | A start tag is `<`, one name token, and what follows up to the first `>` behind it; an end tag begins with `<` and a slash |
| TagForms.EndTagExactly | libcomm/src/base/MarkupSTL.cpp:731-755 | An end tag is a slash, a token that matches the name, and what follows up to the next `>`; a string in the place of either is not looked at |
| TagForms.EndTagNames | libcomm/src/base/MarkupSTL.cpp:731-755 | An end tag with a name closes the elements of that name, and no others |
| TagForms.QuotedEnd | libcomm/src/base/MarkupSTL.cpp:731-755 | An end tag with a quoted name closes any element |
| ScanLoops.ScanToken | libcomm/src/base/MarkupSTL.cpp:780-837 | The loops of the tokenizer compute the token function |
| ScanLoops.ScanNode | libcomm/src/base/MarkupSTL.cpp:946-1046 | The branches and the document type loop of the node scanner compute the node function |
| Locality.FindTokenLocal | libcomm/src/base/MarkupSTL.cpp:780-837 | A token that ends inside a window is found alike, shifted, in every text that reads the same there |
| Locality.ParseNodeLocal | libcomm/src/base/MarkupSTL.cpp:946-1046 | A comment, instruction, document type or CDATA section that ends inside a window is found alike, shifted, in every text that reads the same there |
| MarkupDoc.Markup.FindStartTag | libcomm/src/base/MarkupSTL.cpp:651-694 | The start tag loop: where the next start tag or end tag stands, with the scratch offsets it leaves |
| MarkupDoc.Markup.FindEndTag | libcomm/src/base/MarkupSTL.cpp:727-755 | The end tag loop: the end of an end tag whose name matches |
| MarkupDoc.Markup.ParseElem | libcomm/src/base/MarkupSTL.cpp:638-760 | The recursive parser fills the array with exactly the subtree the parser function reads; entries below it are kept, and the free index ends behind it |
| MarkupDoc.Markup.ParseContent | libcomm/src/base/MarkupSTL.cpp:705-756 | The loop over the children, each linked behind the one before it |
| MarkupDoc.Markup.GetFreePos | libcomm/src/base/MarkupSTL.cpp:603-612 | A free index; the array grows when it is used up |
| RoundTrip.ElemComplete | libcomm/src/base/MarkupSTL.cpp:638-760 | The parser finds every well-formed element whose text stands at a place behind text it passes over |
| RoundTrip.ElemSound | libcomm/src/base/MarkupSTL.cpp:638-760 | Whatever the parser finds is a well-formed element whose text stands there, numbered in document order |
| Order.ParsedInOrder | libcomm/src/base/MarkupSTL.cpp:603-622 | A subtree that is read takes exactly the indices from its own to the last before the free one, in document order, despite the indices taken and given back |
| Order.RepNested | libcomm/src/base/MarkupSTL.cpp:638-760 | The four offsets of every element are in order, children lie strictly between the start tag and the end tag of their parent, one behind the other |
| Parsed.ElemEnds | libcomm/src/base/MarkupSTL.cpp:651-694 | The parser comes to an end on every text without a `<` directly followed by whitespace |
| Parsed.NextTagEndless | libcomm/src/base/MarkupSTL.cpp:659-694 | The start tag loop makes no progress exactly if, behind text it passes over, there stands a `<`, whitespace, and then `?` or `!` |
| MarkupDoc.Markup.SetDoc | libcomm/src/base/MarkupSTL.cpp:46-88 | The tree is what the parser finds, with the text behind the root kept, or nothing |
| MarkupDoc.Markup.IsWellFormed | libcomm/src/base/MarkupSTL.cpp:90-95 | There is a root |
| MarkupDoc.Markup.FindPos | libcomm/src/base/MarkupSTL.cpp:848-944 | The search for a path computes the search function on the tree |
| Paths.FindPathSteps | libcomm/src/base/MarkupSTL.cpp:877-944 | A path finds the first sibling its first step names, then the first child of that one its second step names, and so on; a step is a name or `*`, and other elements of the name are not tried |
| Paths.SearchSteps | libcomm/src/base/MarkupSTL.cpp:877-944 | The search takes these steps from behind the position, or from the root if the path begins with a slash |
| MarkupDoc.Markup.FindElem | libcomm/src/base/MarkupSTL.cpp:146-161 | The position changes only if an element is found, to it and its parent |
| MarkupDoc.Markup.FindChildElem | libcomm/src/base/MarkupSTL.cpp:163-182 | The child search, from the first element if there is no main position, and what is left of the position if it fails |
| MarkupDoc.Markup.IntoElem | libcomm/src/base/MarkupSTL.cpp:322-338 | The child position becomes the main one |
| MarkupDoc.Markup.OutOfElem | libcomm/src/base/MarkupSTL.cpp:340-349 | The parent becomes the main position, the main one the child position |
| MarkupDoc.Markup.SetPos | libcomm/include/MarkupSTL.h:193-204 | The three positions and the node type |
| MarkupDoc.Markup.GetTagName | libcomm/src/base/MarkupSTL.cpp:1048-1058 | The name in the start tag |
| MarkupDoc.Markup.LocateNew | libcomm/src/base/MarkupSTL.cpp:1485-1570 | The offset, the element to link behind, and the place in the tree that both stand for |
| Places.SkipCuts | libcomm/src/base/MarkupSTL.cpp:1522-1529 | The place found behind whitespace is one where the text between two tags may be cut |
| Places.SkipUp | libcomm/src/base/MarkupSTL.cpp:1522-1529 | What is passed over: whitespace in front of a tag or of the end, with a quote that stands right in front of the tag; in front of anything else nothing |
| Places.UpCases | libcomm/src/base/MarkupSTL.cpp:1522-1529 | Whitespace is passed over in front of the end and of a tag, and not in front of other text |
| Places.SpaceExactly | libcomm/src/base/MarkupSTL.cpp:1522-1529 | Only whitespace is passed over, exactly if no quote stands right in front of the tag |
| MarkupDoc.Markup.EnterElem | libcomm/src/base/MarkupSTL.cpp:1623-1672 | The new entry: its links and its four offsets |
| MarkupDoc.Markup.AddElem | libcomm/src/base/MarkupSTL.cpp:1572-1706 | The element text, value escaped, goes in before or behind the sibling, behind the start tag or before the end tag, from there up to the tag that follows over whitespace (`UpToTag`); an empty parent is opened up around it; in the tree it stands at that place under the same parent, or is the root; everything else is as before |
| MarkupDoc.Markup.AddUnder | libcomm/src/base/MarkupSTL.cpp:1674-1699 | The text put in, the pre-adjusted parent `<A/>` that becomes `<A>..</A>`, and the walk give a laid out document with the element planted in it |
| States.SiteState | libcomm/src/base/MarkupSTL.cpp:1674-1699 | Text, array after links, pre-adjustment and walk are laid out for the tree with the new subtree at its place: for siblings, first children and opened empty parents |
| Sites.SiteFits | libcomm/src/base/MarkupSTL.cpp:1674-1699 | The tree with a new subtree is well-formed exactly if, for an empty parent, its start tag can be opened up |
| Limits.OpenedUp | libcomm/src/base/MarkupSTL.cpp:1255-1275 | An empty element with data put in is well-formed exactly if its start tag can be opened up |
| Gaps.SplitTag | libcomm/src/base/MarkupSTL.cpp:1675-1697 | An empty start tag without its slash is a start tag exactly if the tag before it does not end in a slash; the name stays |
| MarkupDoc.Markup.AddSubDoc | libcomm/src/base/MarkupSTL.cpp:1708-1809 | If the parser does not accept the text where it stands, text, free index and every entry in use are what they were, for every parent; otherwise the subtree is planted beside the child position |
| MarkupDoc.Markup.RevertSub | libcomm/src/base/MarkupSTL.cpp:1769-1776 | Taking the text out again restores the document |
| MarkupDoc.Markup.SkipNodes | libcomm/src/base/MarkupSTL.cpp:1736-1745 | The loop over the nodes in front of the element |
| SubDocs.SkipEndsExactly | libcomm/src/base/MarkupSTL.cpp:1736-1745 | The loop ends exactly if it does so in as many turns as the text has characters |
| SubDocs.NeverEnds | libcomm/src/base/MarkupSTL.cpp:1736-1745 | Two nodes and then a `<` keep it going for ever, if what is read from the place numbered like the length of the second ends at that `<` |
| SubDocs.DeclarationLoops | libcomm/src/base/MarkupSTL.cpp:1736-1745 | So does every XML declaration with a line break before the element |
| SubDocs.SkipOne | libcomm/src/base/MarkupSTL.cpp:1736-1745 | With at most one node in front, what is put in starts behind it |
| SubDocs.FrontExactly | libcomm/src/base/MarkupSTL.cpp:1736-1745 | What is put in starts at the element exactly if at most one node stands in front of it, unless a node read from inside the front goes over its start |
| SubDocs.CommentLoop | libcomm/src/base/MarkupSTL.cpp:1736-1745 | A comment right behind a declaration keeps the loop going for ever too |
| Editor.SubAccepted | libcomm/src/base/MarkupSTL.cpp:1745-1776 | One closed element is accepted under every element |
| Parsed.FragmentParses | libcomm/src/base/MarkupSTL.cpp:1745-1776 | A text of one closed element is parsed alike wherever it is put in |
| MarkupDoc.Markup.SetDataAt | libcomm/src/base/MarkupSTL.cpp:1235-1296 | The content becomes the data, as text, as a CDATA section, or as text where CDATA cannot hold it; only childless elements |
| MarkupDoc.Markup.GetDataAt | libcomm/src/base/MarkupSTL.cpp:1298-1336 | Content that was written as data is read as that data, in each of the three forms |
| Editor.SetThenGetData | libcomm/src/base/MarkupSTL.cpp:1235-1336 | `GetData` after `SetData(d)` returns `d` |
| Content.DataReads | libcomm/src/base/MarkupSTL.cpp:1193-1206 | Where the content of any string, written in either form, stands in front of a tag, reading it gives the string back |
| Content.DataGap | libcomm/src/base/MarkupSTL.cpp:1193-1206 | Content written in either form holds nothing the parser takes for a tag |
| Content.DataMeans | libcomm/src/base/MarkupSTL.cpp:1257-1265 | A CDATA section is written exactly if it is asked for and no `]]>` occurs in the data; else escaped text |
| Content.SectionReads | libcomm/src/base/MarkupSTL.cpp:1298-1336 | A section is read as its text, whatever whitespace stands in front of it and whatever stands behind it |
| Content.TextReads | libcomm/src/base/MarkupSTL.cpp:1298-1336 | Content without markup is read with its references replaced |
| Values.WithDataText | libcomm/src/base/MarkupSTL.cpp:1267-1290 | The text of the element is its start tag, the data, and its end tag, or for an empty one a new end tag |
| MarkupDoc.Markup.CreateCData | libcomm/src/base/MarkupSTL.cpp:1193-1206 | A CDATA section, unless the text holds its end mark |
| MarkupDoc.Markup.SetAttribAt | libcomm/src/base/MarkupSTL.cpp:1120-1161 | The attribute has the escaped value, every other attribute keeps its own, the start tag stays plain |
| MarkupDoc.Markup.RemoveAttribAt | libcomm/src/base/MarkupSTL.cpp:1163-1191 | The attribute is absent, every other one keeps its value |
| MarkupDoc.Markup.GetAttribAt | libcomm/src/base/MarkupSTL.cpp:1099-1110 | The unescaped value of the attribute, or nothing |
| Editor.SetThenGetAttrib | libcomm/src/base/MarkupSTL.cpp:1099-1161 | `GetAttrib(a)` after `SetAttrib(a, v)` returns `v` |
| Editor.RemoveThenGetAttrib | libcomm/src/base/MarkupSTL.cpp:1099-1191 | `GetAttrib` after `RemoveAttrib(a)` returns nothing for `a` and what it did before for any other name |
| Attribs.SearchTag | libcomm/src/base/MarkupSTL.cpp:1060-1097 | Where a start tag with these attributes stands, the search finds the value of the first attribute of that name, at its place, or nothing |
| Attribs.SetAttrLookup | libcomm/src/base/MarkupSTL.cpp:1120-1161 | In the list of attributes: the new value under its name, the old ones under theirs |
| Attribs.CutAttrLookup | libcomm/src/base/MarkupSTL.cpp:1163-1191 | In the list of attributes: nothing under its name, the old values under the others |
| Values.SetTagThere | libcomm/src/base/MarkupSTL.cpp:1120-1161 | In the start tag the value changes where it stands; quotes, order and whitespace stay |
| Values.SetTagNew | libcomm/src/base/MarkupSTL.cpp:1120-1161 | A new attribute goes to the end of the start tag, behind a space, in double quotes |
| Values.CutTagThere | libcomm/src/base/MarkupSTL.cpp:1163-1191 | An attribute goes with the one character in front of its name; the rest of the start tag stays |
| Attribs.PlainTagOK | libcomm/src/base/MarkupSTL.cpp:1060-1097 | A name with quoted attributes is a start tag by the parser |
| Escaping.TextToDoc | libcomm/src/base/MarkupSTL.cpp:1338-1372 | The escaping loop computes the function that `EscapeMeans` fixes |
| Escaping.TextFromDoc | libcomm/src/base/MarkupSTL.cpp:1374-1409 | The unescaping loop computes the function that `UnescapeMeans` fixes |
| Escaping.EscapeMeans | libcomm/src/base/MarkupSTL.cpp:1338-1372 | `<`, `&` and `>` are written `&lt;`, `&amp;` and `&gt;`; in attribute values the two quotes are written `&apos;` and `&quot;`; every other character is written as itself |
| Escaping.UnescapeMeans | libcomm/src/base/MarkupSTL.cpp:1374-1409 | The five references are read as their characters; a character that begins none of them is read as itself |
| Escaping.EscapeInverse | libcomm/src/base/MarkupSTL.cpp:1338-1409 | Unescaping inverts escaping, for every string and both ways of escaping |
| Escaping.EscapeHarmless | libcomm/src/base/MarkupSTL.cpp:1338-1372 | Escaped text holds no `<`, no `>`, and in attribute values no quotes |
| Escaping.UnescapeShortens | libcomm/src/base/MarkupSTL.cpp:1374-1409 | Unescaping never makes a text longer |
| MarkupDoc.Markup.RemoveElem | libcomm/src/base/MarkupSTL.cpp:428-438 | The element goes with what is passed over behind it up to the next tag or the end, and nothing else does (`TextRemoved`); the position is the one before it. With the root gone, the index agrees with the text exactly if no element stands behind the root |
| MarkupDoc.Markup.RemoveChildElem | libcomm/src/base/MarkupSTL.cpp:440-450 | The same for the child position |
| MarkupDoc.Markup.RemoveAt | libcomm/src/base/MarkupSTL.cpp:1811-1844 | The element is taken out of text, links and tree, behind a sibling, as first child or as the root; with it goes the whitespace up to a tag or the end, none in front of other text |
| Removals.QuoteGoes | libcomm/src/base/MarkupSTL.cpp:1835-1841 | With `<p><b/>"<i/></p>`, removing the first child takes the quote too |
| Removals.RootGoneAgrees | libcomm/src/base/MarkupSTL.cpp:1811-1844 | For a prolog without tags: an index without elements agrees with prolog and rest exactly if the rest has no element |
| Limits.NoProgress | libcomm/src/base/MarkupSTL.cpp:659-694 | The parser does not come to an end on `< !x` |
| Limits.InsertedStart | libcomm/src/base/MarkupSTL.cpp:1514-1529 | The place of a first root that is inserted is 1: inside the text exactly if there is any |
| Limits.InsertedBehindEnd | libcomm/src/base/MarkupSTL.cpp:1514-1529 | In the empty document it is behind the end |
| Limits.InsertedRoot | libcomm/src/base/MarkupSTL.cpp:1514-1529 | A first root put in at an offset agrees with its text exactly if no tag and no part of one stands in front of the offset |
| Limits.InsertedInComment | libcomm/src/base/MarkupSTL.cpp:1514-1529 | With `<!--c-->` for the document it does not agree |
| Limits.SecondRoot | libcomm/src/base/MarkupSTL.cpp:1811-1844 | With an element behind the root, removing the root leaves an index that does not agree |
| Limits.TwoSlashes | libcomm/src/base/MarkupSTL.cpp:1675-1697 | `<a//>` cannot be opened up |
| Base64Buffers.EncodeBase64 | libcomm/src/base/MarkupSTL.cpp:468-525 | The encoder with line breaks writes the wrapped text into the buffer of its pre-computed size and never past it |
| Base64Buffers.DecodeBase64 | libcomm/src/base/MarkupSTL.cpp:527-596 | The decoder that skips line breaks computes the decoding function if the bytes fit, for every text with at most three pad characters |
| Base64Buffers.RoundTrip | libcomm/src/base/MarkupSTL.cpp:468-596 | Decoding what was encoded, into room for at least the original length, gives the original bytes and length |
| Base64Decoding.DecodeWrapped | libcomm/src/base/MarkupSTL.cpp:527-596 | The decoding function inverts the wrapped encoding of every byte string |
| Base64.WrappedFlat | libcomm/src/util/base64.cpp:12-38 | The wrapped text without CR and LF is the flat text |
| Base64.Alphabet | libcomm/src/util/base64.cpp:15 | The 64 codes are those of the standard |
| Base64.GroupBits | libcomm/src/util/base64.cpp:12-38 | Three bytes are four times six bits, the first ones first; two or one have one or two pad characters |
| Base64.WrappedBroken | libcomm/src/base/MarkupSTL.cpp:482-521 | The line breaks stand behind exactly every 64 code characters, and behind a padded last group |
| Base64Buffers.LineEnd | libcomm/src/base/MarkupSTL.cpp:516-520 | A line is full exactly where the offset is divisible by 66 |
| Base64.WrappedFits | libcomm/src/base/MarkupSTL.cpp:470-476 | The pre-computed size is never too small, and for lengths such as 1 it is exact |
| Base64Buffers.Encode | libcomm/src/util/base64.cpp:12-38 | The flat encoder writes the flat text and a zero behind it |
| Base64Buffers.DecodeFlat | libcomm/src/util/base64.cpp:40-68 | The flat decoder writes the decoded bytes and a zero behind them |
| Base64Decoding.UnflatFlat | libcomm/src/util/base64.cpp:12-68 | Flat decoding of a flat text gives the bytes and one zero byte for each pad character |
| Base64Decoding.StringsInverse | libcomm/src/util/base64.cpp:71-97 | The string overloads are inverse on every non-empty input without a zero byte |
| Base64Buffers.StringRoundTrip | libcomm/src/util/base64.cpp:71-97 | The same for the two methods with their allocated buffers |
| PoolRuns.Replay | ServerFrameWork/src/base/stat.cpp:154-203 | Every run of registrations, steps and resets within the room of the pool, whatever the ids, leaves it well-formed, and its objects are what the calls do one after the other; with ids that fit their field that is all that is asked, objects of one id are neighbours in their bucket, and no id has two of one type |
| PoolSteps.RunShort | ServerFrameWork/src/base/stat.cpp:154-203 | With ids that fit their field every step of a run is complete |
| PoolRuns.AlwaysPartitioned | ServerFrameWork/src/base/stat.cpp:303-346 | In every valid pool the free list and the bucket chains end, repeat and share nothing, hold every handle, the chains `statobjs_used_` of them, and every used slot belongs to one object |
| PoolLayout.Partition | ServerFrameWork/src/base/stat.cpp:303-346 | The same from the links alone |
| PoolLayout.OneOwner | ServerFrameWork/src/base/stat.cpp:303-318 | The value ranges are disjoint and fill the used slots |
| PoolRuns.SlotsCounted | ServerFrameWork/src/base/stat.cpp:303-318 | The counter of used slots is the sum over the objects |
| Pool.CTStat.Step | ServerFrameWork/src/base/stat.cpp:179-203 | For each id, one update to every object of that id which the loop reaches; these are all of them where objects of one id are neighbours |
| PoolView.StepAllTimes | ServerFrameWork/src/base/stat.cpp:179-203 | A step updates each object as often as the list of ids holds its id, and no other object |
| PoolSteps.StepComplete | ServerFrameWork/src/base/stat.cpp:188-200 | Despite the early `break` a step does for every id, value and index what is asked of it exactly if objects of one id are neighbours in their bucket |
| PoolSteps.RunMisses | ServerFrameWork/src/base/stat.cpp:188-200 | Where they are not, some object of a listed id gets no update |
| Pool.CTStat.Step0 | ServerFrameWork/src/base/stat.cpp:204-207 | A step for one id |
| Pool.CTStat.StepSlots | ServerFrameWork/src/base/stat.cpp:190-196 | The `__step__` call, with the six bodies of `stat_policy.h`: the slot of the index (for a minimum the first one), which value, whether the count goes up |
| Pool.CTStat.StepObj | ServerFrameWork/src/base/stat.cpp:190-196 | The policy bound to the type is applied to that object, and no other object changes |
| PoolView.InitContiguous | ServerFrameWork/src/base/stat.cpp:154-178 | A registration keeps objects of one id neighbours exactly if nothing is added, the stored id is new, or the newest object of its bucket has it |
| PoolRuns.LongIdSplits | ServerFrameWork/src/base/stat.cpp:25-35 | An id too long for its field can break that |
| PoolView.LongNeverFound | ServerFrameWork/src/base/stat.cpp:283-302 | An id too long for its field is never found, so registering it again is not refused |
| Pool.CTStat.InitStatObj | ServerFrameWork/src/base/stat.cpp:154-178 | An existing id changes nothing; a new one gets an object for each type bit |
| PoolView.InitTypes | ServerFrameWork/src/base/stat.cpp:154-178 | A new id gets exactly its type bits, in ascending order, each with zero slots of its own; no other id gets or loses any |
| Pool.CTStat.FindStatObj | ServerFrameWork/src/base/stat.cpp:283-302 | The newest object of that id and type, or none |
| Pool.CTStat.Query | ServerFrameWork/src/base/stat.cpp:228-240 | It succeeds exactly on registered ids, with the newest object |
| Pool.CTStat.AllocStatObj | ServerFrameWork/src/base/stat.cpp:303-318 | Handles are given out in order, value ranges side by side |
| Pool.CTStat.InsertStatObj | ServerFrameWork/src/base/stat.cpp:319-328 | The object comes first in the chain of its bucket |
| Pool.CTStat.NewPool | ServerFrameWork/src/base/stat.cpp:329-346 | All handles free, all slots zero |
| Pool.CTStat.InitStatPolicy | ServerFrameWork/src/base/stat.cpp:141-153 | The policy is bound to its type bit in the three tables |
| Pool.CTStat.Travel | ServerFrameWork/src/base/stat.cpp:241-260 | Every registered object is visited once: reset, or its result read |
| Pool.CTStat.ResultObj | ServerFrameWork/src/base/stat.cpp:269-282 | An average with a count gives each slot divided by the count, towards zero, and one without gives nothing; every other type gives its count and its slots |
| PoolLayout.LastObject | ServerFrameWork/src/base/stat.cpp:303-318 | With one slot each, the last object is given out exactly if there are more slots than objects |
| PoolLayout.RefusedLast | ServerFrameWork/src/base/stat.cpp:303-318 | A request that fits is refused exactly if it would take the last slot |
| PoolLayout.OneToSpare | ServerFrameWork/src/base/stat.cpp:303-318 | With no more slots than objects, whatever the sizes, the last object is never given out |
| PoolSteps.RunHolds | ServerFrameWork/src/base/stat.cpp:179-203 | Over every run, by type: slot i holds the sum, greatest, least or last of the values told under index i + 1 since the last reset (a minimum: its first slot, under any index), and the count is the number told with the last index (a minimum: all of them; an update: 0) |
| PoolSteps.RunAverage | ServerFrameWork/src/base/stat.cpp:269-282 | After every run the result of an average is, slot by slot, the sum of what was told under the index divided by how often the last index was told; for one slot, the sum divided by the number |
| PoolSteps.SlotGets | ServerFrameWork/src/base/stat.cpp:190-196 | Slot i gets what is told with index i + 1; the first slot of a minimum gets every index, its other slots none |
| PoolSteps.CountGets | ServerFrameWork/src/base/stat.cpp:190-196 | Counted is what is told with the last index; for a minimum every index, for an update nothing |
| PoolSteps.RunInParts | ServerFrameWork/src/base/stat.cpp:154-203 | A run goes on from what its first part left, so what is said of runs holds from the registration of an object on |
| PoolSteps.HeldSum | ServerFrameWork/src/base/stat.cpp:190-196 | A slot of a sum, average or count holds the sum |
| PoolSteps.ChosenAll | ServerFrameWork/src/base/stat.cpp:190-196 | Where every step has the index 1, as for objects with one slot, all values are chosen, in order |
| PoolSteps.HeldMax | ServerFrameWork/src/base/stat.cpp:190-196 | A maximum is right exactly if it is not negative |
| PoolSteps.HeldMin | ServerFrameWork/src/base/stat.cpp:190-196 | A minimum is right exactly if it is not 0, or 0 came last |
| PoolSteps.HeldUpdate | ServerFrameWork/src/base/stat.cpp:190-196 | An update slot holds the last value and is never counted |
| Rings.ListAdd | ServerFrameWork/include/list.h:52-55 | The new entry comes first |
| Rings.ListAddBehind | ServerFrameWork/include/list.h:44-55 | With an entry for the head it comes right behind that entry |
| Rings.ListAddTail | ServerFrameWork/include/list.h:65-68 | The new entry comes last |
| Rings.ListDel | ServerFrameWork/include/list.h:88-93 | The entry is gone from the list, its pointers are null |
| Rings.ListDelInit | ServerFrameWork/include/list.h:99-103 | The entry is gone from the list and is a list of its own |
| Rings.ListMove | ServerFrameWork/include/list.h:110-114 | The entry leaves its list and comes first in the other one, or in the same |
| Rings.ListMoveTail | ServerFrameWork/include/list.h:121-126 | The entry leaves its list and comes last in the other one, or in the same |
| Rings.ListSplice | ServerFrameWork/include/list.h:156-160 | The entries of the other list come first, in order; its head keeps its pointers |
| Rings.ListSpliceInit | ServerFrameWork/include/list.h:169-177 | The same, and the other list is empty |
| Rings.ListEmpty | ServerFrameWork/include/list.h:132-135 | The list has no entries |
| Rings.OneList | ServerFrameWork/include/list.h:14-17 | The links of a head leave no choice what its list is |
| Rings.Rotate | ServerFrameWork/include/list.h:28-42 | Every node of a ring can be taken for its head |
| Rings.ForEach | ServerFrameWork/include/list.h:193-194 | The entries in order |
| Rings.ForEachPrev | ServerFrameWork/include/list.h:200-202 | The entries in reverse order |
| Rings.BothWays | ServerFrameWork/include/list.h:193-202 | The two iterations are each other's reverse |
| Rings.ForEachSafe | ServerFrameWork/include/list.h:210-212 | Every entry of the list as it was is visited once even if the current one is deleted; the others stay |
| Load.Replay | ServerFrameWork/src/base/load.cpp:59-116 | In every run, each peek returns the growth of the window closed last, per second |
| Load.CLoad.PeekLoad | ServerFrameWork/src/base/load.cpp:81-116 | The windows turn over if the interval has passed; the result is the growth of the window closed last divided by the interval |
| Load.CLoad.GrowLoad | ServerFrameWork/src/base/load.cpp:59-67 | Growth goes to the cell of its half second in the open window, and to no other cell |
| Load.CLoad.Trans | ServerFrameWork/src/base/load.cpp:34-51 | The grids change roles and the new current one starts from 0 |
| Load.CLoad.CheckLoad | ServerFrameWork/src/base/load.cpp:68-80 | Overload: the peek is above the limit |
| Load.CLoad.MaxLoad | ServerFrameWork/src/base/load.cpp:52-58 | The limit, changed by positive values only |
| Windows.Conserved | ServerFrameWork/src/base/load.cpp:59-116 | The windows lie end to end and cover the run: no growth is lost or counted twice |
| Windows.TurnsApart | ServerFrameWork/src/base/load.cpp:96-100 | Two turns are at least the interval apart |
| Windows.TurnsExactly | ServerFrameWork/src/base/load.cpp:96-100 | The windows turn over at exactly the peeks that come the interval or more after the start and after every turn before |
| Windows.PerSecondIs | ServerFrameWork/src/base/load.cpp:96-115 | A peek gives the growth between the last two turns divided by 5, towards zero, and 0 before the first turn |

## Findings

Where the code does not do what its documentation or its other half expects. Each has an
input, and the condition under which it does.

| source | input | what happens | condition |
|---|---|---|---|
| libcomm/src/base/MarkupSTL.cpp:659-694 | the text `< !x` | the start tag loop stays where it is (`Limits.NoProgress`) | exactly if, behind text that is passed over, there stands a `<`, whitespace, and `?` or `!` (`Parsed.NextTagEndless`) |
| libcomm/src/base/MarkupSTL.cpp:1514-1529 | `InsertElem` on an empty document | the place is offset 1, behind the end of the text (`Limits.InsertedBehindEnd`) | inside the text exactly if there is any (`Limits.InsertedStart`) |
| libcomm/src/base/MarkupSTL.cpp:1514-1529 | `InsertElem` on the text `<!--c-->` | the root goes in behind the `<`, and parsing again finds no root (`Limits.InsertedInComment`) | array and text agree exactly if no tag, and no part of one, is left in front (`Limits.InsertedRoot`) |
| libcomm/src/base/MarkupSTL.cpp:1811-1844 | `RemoveElem` of the root where another element follows it | the array has no element, the text has one (`Limits.SecondRoot`) | they agree exactly if no element stands behind the root (`MarkupDoc.Markup.RemoveElem`) |
| libcomm/src/base/MarkupSTL.cpp:1835-1841, 1522-1529 | `RemoveElem` of `<b/>` in `<p><b/>"<i/></p>` | the quote in front of the next tag is taken for the start of a token and goes too (`Removals.QuoteGoes`); a new element behind `<b/>` is put behind it | only whitespace is passed over exactly if no quote stands right in front of the tag (`Places.SpaceExactly`) |
| libcomm/src/base/MarkupSTL.cpp:731-755 | the end tag `</"b">` | it closes an element of any name (`TagForms.QuotedEnd`) | the name is compared exactly if it is not a string (`TagForms.EndTagExactly`) |
| libcomm/src/base/MarkupSTL.cpp:1675-1697, 1269-1284 | a child or data for `<a//>` (`Limits.TwoSlashes`) | what is left is an empty start tag again | the new text is well-formed exactly if the start tag can be opened up (`Limits.OpenedUp`, `Sites.SiteFits`) |
| libcomm/src/base/MarkupSTL.cpp:1736-1745 | a subdocument `<?xml?>`, a line break and `<b/>` (`SubDocs.SmallestLoop`) | the skipping loop takes the length of the second node for a place in the whole text, and goes on for ever (`SubDocs.DeclarationLoops`) | it ends exactly if it ends in as many turns as there are characters (`SubDocs.SkipEndsExactly`) |
| libcomm/src/base/MarkupSTL.cpp:1736-1745 | a subdocument `<?xml?><!--c--><b/>` | the same without any whitespace (`SubDocs.CommentLoop`) | what is put in starts at the element exactly if at most one node stands in front of it, unless a node read from inside the front goes over the element's start (`SubDocs.FrontExactly`) |
| ServerFrameWork/src/base/stat.cpp:25-35, 154-203 | an id of 64 characters, whose first 63 name an older object with another one of its bucket in between (`PoolRuns.LongIdSplits`) | `step` under the cut id misses the older object (`PoolSteps.RunMisses`); under the long id it finds nothing (`PoolView.LongNeverFound`) | objects of one id stay neighbours exactly if nothing is added, the stored id is new, or the newest object of its bucket has it (`PoolView.InitContiguous`); `step` is complete exactly then (`PoolSteps.StepComplete`) |
| ServerFrameWork/src/base/stat.cpp:305 | as many slots as objects, one slot each | the last object is never given out (`PoolLayout.OneToSpare`) | with one slot each, it is given out exactly if there are more slots than objects (`PoolLayout.LastObject`); any request that fits is refused exactly if it would take the last slot (`PoolLayout.RefusedLast`) |
| ServerFrameWork/include/stat_policy.h:149-168 | only negative values for a maximum | it stays 0 | right exactly if the maximum is not negative (`PoolSteps.HeldMax`) |
| ServerFrameWork/include/stat_policy.h:171-189 | a 0 and then a positive value for a minimum | the 0 is forgotten | right exactly if the minimum is not 0, or 0 came last (`PoolSteps.HeldMin`) |

## Left out

- Node mode of CMarkupSTL (`FindNode`, `AddNode`, `RemoveNode`, and adding beside a node that is not an element): the offset there comes from the node and the link from the last child, so the agreement does not hold.
- `SavePos` and `RestorePos`: saved indices are not invalidated by a removal.
- `Load`, `Save`, error messages, string capacity, the version tag macro and the debug macros.
- `GetOffsets`, `GetChildSubDoc`, `GetAttribName`, `FindGetData`, `FindSetData`, and attributes from integers: easy members over what is modelled.
- MarkupDoc.Markup.SetDoc: wants a text on which the parser comes to an end (exactly which, for the start tag loop, is in `Parsed.NextTagEndless`; a text without a `<` followed by whitespace is enough).
- MarkupDoc.Markup.AddElem: wants a name that is one token without whitespace, quotes or any of `<>=\/?![`; for a first root that is inserted, a text that is not empty, since the code reads behind the end there (`Limits.InsertedBehindEnd`); and an empty parent that can be opened up, since the tree is not well-formed otherwise (`Sites.SiteFits`).
- MarkupDoc.Markup.SetDataAt: wants an empty element that can be opened up, for the same reason.
- MarkupDoc.Markup.SetAttribAt: wants a start tag of a name and quoted attributes with different names, without a raw `>` or another quote of the same kind inside a value.
- MarkupDoc.Markup.GetAttribAt: wants such a start tag too.
- MarkupDoc.Markup.RemoveAttribAt: wants such a start tag too.
- MarkupDoc.Markup.GetDataAt: without a position it is modelled for documents with elements, where it returns nothing; in a document without any the code goes on to read the text from index 1 up to a left over end offset, which may lie outside it.
- MarkupDoc.Markup.AddSubDoc: what is accepted must be one closed element; another text can make the parser take in what stands around it. What is not accepted may be anything on which the parser and the skipping loop come to an end. Only under the main position, as both public members call it.
- Editor.Replay: its calls are those of element mode; texts are not set anew within a run, and a first root is inserted only where a tag may stand.
- Base64Buffers.DecodeBase64: for more than three pad characters in all the code's own arithmetic underflows, and nothing is promised.
- Base64Buffers.DecodeFlat: texts in groups of four code characters or `=`; for other characters the table index depends on the sign of `char`.
- Base64Buffers.Encode: bytes are unsigned; the masks in the code drop the sign bits.
- Pool.CTStat.Step: the index must lie inside every object of the ids, since the code writes to another object's slots otherwise; counts and values do not wrap, and updates are not shared between processes.
- Pool.CTStat.InitStatObj: wants the room that the code asserts.
- Pool.CTStat.ResultObj: at most ten values, the size of the caller's array in the code.
- The real hash of ids (any function into the buckets is allowed), the formatted output of results, the memory mapped file.
- `list_entry` and `list_for_each_entry`: address arithmetic over the enclosing struct.
- Load.CLoad.PeekLoad: seconds and growth do not wrap; the clock is a parameter.
- The shared memory clock, protocol packing, sockets, semaphores, atomics, and all services around these parts.
