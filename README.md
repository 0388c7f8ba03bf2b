# xmlParser core in Dafny

This project models the reading half of the C library xmlParser. Its parts are:

- the attribute reader and the attribute lists (attribute.c);
- the tag tokenizer `readXMLTag` (tag.c);
- the node tree and its operations (node.c);
- the document parser `parseXMLFile` and the path queries `getXMLValue`, `getXMLNode`, `getXMLString` and `getXMLBool` (xml.c).

The library reads a small subset of XML 1.0: start-tags, end-tags and empty-element tags with `name="value"` attributes, and text values. End-tag names are never checked against the element they close.

How the C program is represented:

- **The stream.** A `FILE*` is a `Stream.Reader`: a character sequence with a cursor. Each Dafny `char` stands for one byte of the file, so every length and limit counts bytes. `fgetc` returns the character under the cursor and advances. At the end of the sequence it returns EOF (`None`) and does not move.
- **What each reader returns.** Every reading routine is specified by a function of the text and the start offset. That function gives the result and the new cursor: `ReadAttributeSpec`, `ReadTagSpec`, `ReadValueSpec`, `ParseSpec`. The imperative methods (`ReadAttribute`, `ReadTag`, `Heap.ReadValue`, `Parse`) are proved to compute them, loop by loop.
- **Buffers.** A NUL-terminated buffer becomes the string before its first NUL (`Stream.CString`). Two buffers have a limit of `XML_BUFFER_LENGTH` (200, `Stream.BufferLength`) that is real behaviour: the tag name in `readXMLTag` (tag.c:301-305) and the node name of each path segment in `getXMLNode` (xml.c:390-398, `Queries.NameEnd`). All other buffers are unbounded. `(char)EOF` stored in the tag name buffer is the byte 0xFF (`Tags.EofChar`).
- **Attributes.** An attribute is a value (`Attributes.Attribute`) whose `next` holds the rest of its chain. Lists are changed only by prepending (`Push`) and by popping the head (`Pop`).
- **Tags.** A tag is a `Tags.Tag` object with `name`, `attr` and `kind` fields.
- **Nodes.** Nodes live in an arena, the class `Nodes.Heap`. It maps node identifiers to `XML_Node` records (`Arena.NodeRec`), whose `parent`, `previous`, `next`, `first`, `current` and `last` pointers are `Ref`s (NULL or an identifier). A ghost map holds each node's child sequence. The invariant `Arena.Wf` ties every pointer and `cc` to those sequences. Identifiers grow from parent to child, which keeps the structure a forest.
- **Trees.** `Trees.TreeOf` reads the tree under a node as a value (`Trees.Tree`).
- **Queries.** The queries are specified by functions on those child sequences (`Queries.ValueSpec`, `Queries.NodeSpec`) and by the simpler path-following `Queries.Lookup`.

The main results:

- **Parsing.** `Parsing.Parse` builds exactly the tree `ParseSpec` describes. It leaves every earlier node untouched. A failed parse removes everything it built.
- **Round trips.** `Documents.ParseWritten` shows that a written document (tags, attributes, children, no text) parses back to its own tree, attributes in document order. `Tags.ReadWrittenTag` and `Attributes.ReadWrittenAttribute` are the same round trip at the tag and attribute level.
- **Attach and detach.** `Arena.DetachAttached` shows that `deleteXMLNodeFromParent` undoes `addXMLNodeToParent`.
- **Destroy.** `Nodes.Heap.Destroy` removes exactly the subtree of its node.
- **Queries.** `Queries.ValueAt` and `Queries.NodeAt` show that the path queries follow plain paths name by name.

## Model

| member | source | states |
|---|---|---|
| Stream.Reader.GetC | tag.c:276-278 | `fgetc`: yields the character under the cursor and advances by one, or yields EOF at the end and stays put |
| Attributes.CreateAttribute | attribute.c:26-35 | a created attribute has NULL name, value and next, so `freeXMLAttribute` accepts it |
| Attributes.FreeAttribute | attribute.c:99-114 | an attribute is released exactly when it is non-NULL and its name, value and next are all NULL |
| Attributes.DestroyAttribute | attribute.c:45-65 | the attribute and every attribute reachable through `next` are released: as many as the chain has pairs |
| Attributes.ResetAttribute | attribute.c:153-172 | after a reset the attribute is back in the state `freeXMLAttribute` accepts; NULL stays NULL |
| Attributes.SetAttributeName | attribute.c:183-213 | a NULL attribute or name changes nothing; otherwise only the name changes |
| Attributes.SetAttributeValue | attribute.c:224-254 | a NULL attribute or value changes nothing; otherwise only the value changes |
| Attributes.CopyAttribute | attribute.c:312-316 | `dst` takes each non-NULL field of `src`, keeps its own otherwise, and keeps its `next` |
| Attributes.CopyReplacesHead | attribute.c:312-316 | copying a complete attribute replaces the head pair of the destination chain and leaves the rest of the chain as it was |
| Attributes.Push | tag.c:207-224 | prepending: a NULL attribute leaves the list as it was, and a non-empty list gains the new pair in front |
| Attributes.PushSingle | node.c:237-254 | prepending an unlinked attribute puts its pair in front of the list's pairs, whether or not the list was empty |
| Attributes.Pop | tag.c:235-254 | popping: NULL for an empty list; otherwise the head, with its `next` cleared, and the rest, which together hold the list's pairs |
| Attributes.MoveAllReverses | node.c:376-380 | moving every attribute by popping and prepending reverses their order in front of what the destination held |
| Attributes.ReversedTwice | tag.c:360-373 | reversing twice restores the order; the tag reader reverses its attributes once and the node builder a second time |
| Attributes.ReadAttributeSpec | attribute.c:266-309 | a read attribute has a name, a value and no `next`, and consumes at least one character |
| Attributes.ReadUntil | attribute.c:275-283 | the read loop returns the characters before the first `stop` and consumes that `stop`; EOF first is reported as not found |
| Attributes.ReadAttribute | attribute.c:266-309 | `readXMLAttribute` returns exactly the attribute `ReadAttributeSpec` describes and leaves the cursor where it says |
| Attributes.ReadAttributeFound | attribute.c:295-306 | once both delimiters are found, the name is the text before `=` and the value the text between the quotes |
| Attributes.ReadWrittenAttribute | attribute.c:266-309 | reading `name="value"` gives back exactly that name and value and stops right after the closing quote |
| Attributes.ReadAttributeNeedsQuote | attribute.c:285-290 | an `=` that is not followed by `"` makes the read fail right after that character |
| Tags.TagHead | tag.c:275-289 | a leading `<` is skipped and the character after it is the head; without a leading `<` the first character is the head; the cursor never moves back, and moves past a head it read |
| Tags.NameEndIs | tag.c:292-306 | the name ends at the first space, `>` or `/`, or at EOF |
| Tags.AttrLoop | tag.c:360-373 | the attribute loop stops on the first character after an attribute that is not a space; EOF leaves the cursor at the end |
| Tags.AttrTail | tag.c:376-380 | after the attributes only `>` (OPENING) and `/>` (UNIQUE) end the tag; the last character consumed is `>` |
| Tags.AfterName | tag.c:313-357 | after the name: a result is never UNKNOWN, stays CLOSING for a closing tag, and ends on a consumed `>` |
| Tags.ReadTagSpec | tag.c:265-383 | a tag read consumes at least two characters and ends on `>`, and its type is never UNKNOWN |
| Tags.Tag.constructor | tag.c:27-36 | a created tag has no name, no attributes and type UNKNOWN |
| Tags.Tag.Init | tag.c:115-125 | `initXMLTag` clears the name and the attributes and sets UNKNOWN |
| Tags.Tag.Free | tag.c:92-104 | only a tag without name and attributes is released |
| Tags.Tag.Reset | tag.c:142-157 | every attribute of the list is released and the tag is initialised |
| Tags.Tag.Destroy | tag.c:46-55 | reset, then a free that always succeeds |
| Tags.Tag.SetName | tag.c:168-198 | a NULL name changes nothing; otherwise only the name changes |
| Tags.Tag.AddAttribute | tag.c:207-224 | the attribute is prepended to the tag's list; NULL is ignored; name and type are unchanged |
| Tags.Tag.DeleteAttribute | tag.c:235-254 | the head is unlinked with its `next` cleared, NULL for an empty list; name and type are unchanged |
| Tags.ReadName | tag.c:292-306 | the name loop returns the name up to its first name end, or fails once the buffer holds 200 characters |
| Tags.ReadAttributes | tag.c:360-373 | the attribute loop computes `AttrLoop`; an attribute the reader rejects is dropped |
| Tags.ReadTag | tag.c:265-383 | `readXMLTag` returns NULL exactly when `ReadTagSpec` fails, and otherwise a fresh tag holding its result, with the cursor where it says |
| Tags.FinishTag | tag.c:313-380 | the part after the name computes `AfterName` |
| Tags.ReadWrittenTag | tag.c:265-383 | `<name attrs>` reads as OPENING and `<name attrs/>` as UNIQUE, with the name and every attribute (in reverse order), consuming the whole tag |
| Tags.ReadWrittenEndTag | tag.c:276-320 | `</name>` reads as CLOSING with that name and no attributes, consuming the whole tag |
| Tags.EndTagRefusesSpace | tag.c:341-380 | a space after the name of an end tag, as in `</a >`, makes the read fail |
| Tags.LongNameRefused | tag.c:286-305 | a start-tag name of 200 bytes or more makes the read fail |
| Tags.LongEndNameRefused | tag.c:282-305 | an end-tag name of 200 bytes or more makes the read fail |
| Tags.SlashWithoutCloseRefused | tag.c:323-331 | a `/` after a start-tag name that is not followed by `>`, as in `<a/x`, makes the read fail |
| Tags.EndTagRefusesSlash | tag.c:333-338 | a `/` after an end-tag name, as in `</a/>`, makes the read fail |
| Tags.NameAtEofRefused | tag.c:346-350 | a start-tag name that runs up to the end of the file makes the read fail |
| Tags.FirstCharStartsName | tag.c:285-319 | the byte after `<` starts the name whatever it is (unless it is `/`), so `<>>` is an OPENING tag named `>` |
| Arena.Attached | node.c:301-315 | the arena after `addXMLNodeToParent`, written field by field in the order of the C code |
| Arena.AttachedWf | node.c:287-317 | a successful append keeps the arena well formed, with the child added at the end of the parent's children |
| Arena.AttachedShape | node.c:301-315 | the child's parent becomes the parent and its previous the old last child; the parent's `cc`, `first`, `current` and `last` describe the longer child list |
| Arena.AttachedKeeps | node.c:301-315 | appending changes no name, value or attribute list, and no `parent` field except the child's |
| Arena.CreateWf | node.c:27-36 | a fresh blank node under the next identifier keeps the arena well formed |
| Arena.FreeWf | node.c:100-121 | removing a node without parent and without children keeps the arena well formed |
| Arena.RelabelWf | node.c:159-228 | changing only a node's name, value and attributes keeps the arena well formed |
| Arena.WithoutAt | node.c:331-362 | removing a child from a list without repeats cuts it out at its index, and the remaining siblings keep their order |
| Arena.Detached | node.c:331-362 | the arena after `deleteXMLNodeFromParent`; the child is left without a parent |
| Arena.DetachedWf | node.c:320-364 | a successful detach keeps the arena well formed, with the child removed from the parent's children and the others in order |
| Arena.DetachedShape | node.c:331-362 | the parent loses one from `cc`, `first`/`last` move past the child, `current` moves to `next` or else to `previous`, and the child's links are cleared |
| Arena.DetachedOther | node.c:331-362 | nodes other than the child, its parent and its two neighbours are left as they were |
| Arena.DetachAttached | node.c:287-364 | detaching a child right after attaching it gives back the arena it was attached to |
| Nodes.SetterGuardAsWritten | node.c:162-168 | the guard chain as written never refuses a NULL argument; it proceeds exactly when the node is non-NULL |
| Nodes.NullArgumentProceeds | node.c:162-168 | there is a NULL argument that gets past the guard chain as written |
| Nodes.SetterGuard | node.c:162-168 | the intended guard chain proceeds exactly when neither the node nor the argument is NULL |
| Nodes.SkipToValue | node.c:446-464 | the first loop stops at the first `<` or character in `!`..`~`: that offset holds one, and no earlier offset does |
| Nodes.ValueEnd | node.c:467-487 | the second loop stops at the first `<`, line feed or carriage return: that offset holds one, and no earlier offset does |
| Nodes.Printable | node.c:482-486 | the value keeps exactly the characters in ` `..`~`: every kept character is printable and comes from the input, and every printable input character is kept |
| Nodes.ReadValueSpec | node.c:440-492 | a value, when there is one, is non-empty, starts with a character in `!`..`~`, is printable throughout, holds no `<`, line feed or carriage return, and ends on a consumed stop character |
| Nodes.ScanValueStart | node.c:446-464 | the first loop yields EOF at the end, or the `<` or value-start character it stopped on, consumed |
| Nodes.ScanValueRest | node.c:466-490 | the second loop yields the first character and the printable characters up to the stop, or nothing if EOF comes first |
| Nodes.Heap.constructor | node.c:27-36 | an empty arena is well formed |
| Nodes.Heap.CreateNode | node.c:27-36 | `createXMLNode` adds one blank node under a new identifier and changes nothing else |
| Nodes.Heap.Init | node.c:130-147 | `initXMLNode` sets every pointer to NULL and `cc` to 0 and keeps the arena well formed |
| Nodes.Heap.Free | node.c:100-121 | `freeXMLNode` releases a node exactly when it is in the state `initXMLNode` leaves |
| Nodes.Heap.SetName | node.c:159-188 | a NULL node or name is refused, using the corrected guard (see Findings); otherwise only that node's name changes |
| Nodes.Heap.SetValue | node.c:199-228 | a NULL node or value is refused, using the corrected guard (see Findings); otherwise only that node's value changes, replacing any earlier value |
| Nodes.Heap.AddAttribute | node.c:237-254 | the attribute is prepended to the node's list; a NULL node or attribute is refused, using the corrected guard (see Findings) |
| Nodes.Heap.DeleteAttribute | node.c:265-284 | pops the head of the node's list with `next` cleared; NULL for a NULL node or an empty list |
| Nodes.Heap.AddChild | node.c:287-317 | a NULL parent or child, or a child with a parent or siblings, changes nothing; otherwise the child is appended as `Attached` says, and the child lists gain it at the end |
| Nodes.Heap.DeleteFromParent | node.c:320-364 | a NULL or parentless child changes nothing; otherwise the arena becomes `Detached` and the child leaves its parent's children, the others keeping their order |
| Nodes.Heap.Unhook | node.c:331-362 | the pointer writes of a successful detach produce `Detached` |
| Nodes.Heap.Destroy | node.c:47-80 | exactly the subtree of the node is removed; every other node is as it was, or as a detach of the node from its parent leaves it |
| Nodes.Heap.Release | node.c:58-78 | a childless node is detached from its parent and released |
| Nodes.Heap.InitFromTag | node.c:367-382 | the node gets the tag's name and every tag attribute in reverse order; the tag is left with no attributes; a NULL node or tag changes nothing |
| Nodes.Heap.ReadValue | node.c:440-492 | `readXMLNodeValue` stores the value `ReadValueSpec` describes; without one the node keeps its own |
| Subtrees.BelowGe | xml.c:221-223 | a descendant's identifier is never below its ancestor's, since a child is always created after its parent |
| Subtrees.LastChild | node.c:54-56 | a node with children has a last child; it is that node's child and is the last of its child sequence |
| Subtrees.PrunedStep | node.c:54-56 | destroying the last child removes that child's subtree and leaves everything outside the node's subtree as it was |
| Subtrees.PrunedEnd | node.c:54-61 | once `cc` is 0, the node is the only part of its subtree left |
| Subtrees.DestroyedPost | node.c:58-78 | after the detach and release, the nodes left are the original ones minus the subtree |
| Trees.ForestAppend | node.c:305-315 | appending a child adds its tree at the end of the parent's list of child trees |
| Trees.TreeFrame | node.c:287-317 | the tree under a node depends only on the records of its subtree |
| Parsing.Opened | node.c:367-382 | the element made from a read tag has the tag's name, no value, no children, and the tag's attributes reversed |
| Parsing.WithValue | xml.c:210 | a value read for `current` replaces its earlier value; no value leaves it |
| Parsing.Close | xml.c:232-235 | a closing tag finishes the innermost open element, whatever the tag's name: that element becomes the last child of the one around it, and the outer frames are unchanged |
| Parsing.ParseRoot | xml.c:201-242 | the loop started with the root open finishes, if at all, with a tree named like the root |
| Parsing.ParseFromNamed | xml.c:208-242 | the loop ends with the outermost open element, so the result carries its name |
| Parsing.ParseSpec | xml.c:174-251 | a successful parse always yields a named root |
| Parsing.BuildDone | xml.c:236-250 | when the root closes, the arena holds the finished tree under the parentless root |
| Parsing.BuildFailed | xml.c:213-218 | a failed parse leaves, once the root's subtree is gone, exactly the arena it started from |
| Parsing.ValueStep | xml.c:210 | `readXMLNodeValue(current)` sets the value of the innermost open element |
| Parsing.AddNodeFromTag | xml.c:221-223 | create, init from the tag and append under `current` give a new last child made from the tag |
| Parsing.TagStep | xml.c:219-239 | OPENING adds a child and descends into it, UNIQUE adds a child and stays, CLOSING ascends, or ends the loop exactly at the root |
| Parsing.Abandon | xml.c:213-218 | `destroyXMLNode(root)` on a failed read restores the arena from before the parse |
| Parsing.ParseFromStep | xml.c:208-242 | one round of `ParseFrom` is decided by the value and the tag read: no tag fails, the root's closing tag finishes, any other tag continues on the updated stack past the tag |
| Parsing.LoopStep | xml.c:208-242 | one round reads a value, then a tag, and does what `ParseFrom` does with them; each continuing round consumes input |
| Parsing.ParseLoop | xml.c:208-248 | the loop succeeds exactly when `ParseFrom` finds a tree, and then the arena holds that tree under the root; `root == current` always holds at its end |
| Parsing.NewRoot | xml.c:195-204 | the first tag becomes a parentless root whose tree is the element made from the tag |
| Parsing.Parse | xml.c:174-251 | `parseXMLFile` returns NULL exactly when `ParseSpec` finds nothing; otherwise a parentless root whose tree is the one `ParseSpec` finds; earlier nodes are untouched |
| Documents.ParseWritten | xml.c:174-251 | a written document, with no text, parses back to the tree of its root element with attributes in document order, and the parse stops right after it |
| Queries.Segment | xml.c:295-306 | a segment runs up to the first `/`, `:`, `$` or end of string |
| Queries.FindAttrFirst | xml.c:345-354 | the attribute search fails exactly when no pair has the name, and otherwise yields the first pair that has it |
| Queries.Seek | xml.c:316-322 | the sibling walk reaches the first node with the name and skips only nodes without it |
| Queries.SiblingsNext | xml.c:317 | following `next` drops the first of a node's remaining siblings |
| Queries.SiblingsFirst | xml.c:325-326 | following `first` gives the node's children in order |
| Queries.ReadSegment | xml.c:295-306 | the segment loop computes `Segment` |
| Queries.ReadRest | xml.c:336-342 | the attribute-name loop returns the rest of the path up to its end |
| Queries.FindSibling | xml.c:316-322 | `n = n->next` until a node with the name stops where `Seek` does |
| Queries.FindAttribute | xml.c:345-348 | the attribute loop yields the first attribute with the name |
| Queries.ValueStep | xml.c:294-355 | one pass either settles the result or moves further along the path with the same outcome |
| Queries.ValueAtNode | xml.c:319-355 | NULL finds nothing; `/` goes to the first child, `$` yields a present value, and `:` the value of the named attribute |
| Queries.GetValue | xml.c:276-360 | `getXMLValue` yields exactly what `ValueSpec` finds from the root |
| Queries.NoLeafNoValue | xml.c:310-313 | a path with neither `$` nor `:` finds no value |
| Queries.ValueAt | xml.c:289-355 | on a path of plain names ending in `$` or `:attr`, the value is the node's value or the attribute's at the node `Lookup` reaches |
| Queries.NameEnd | xml.c:385-398 | a name ends at the first `/`, `?` or end of string, or after 200 characters |
| Queries.ReadName | xml.c:385-398 | the name loop of `getXMLNode` computes `NameEnd` |
| Queries.NodeAtNode | xml.c:472-484 | no match gives NULL; `/` recurses into the first child; anything but the end of string gives NULL |
| Queries.GetNode | xml.c:370-485 | `getXMLNode` on a path without `?` yields exactly the node `NodeSpec` finds from the root |
| Queries.NodeAt | xml.c:370-485 | on a path of plain names, the node found is the one `Lookup` reaches name by name; NULL when a name has no match |
| Queries.GetString | xml.c:487-495 | the value at the path, or the default when there is none |
| Queries.GetBool | xml.c:511-531 | exactly "true" gives 1 and exactly "false" gives 0; anything else, including no value, gives the default |

## Left out

- File handling (`createXMLFile`, `destroyXMLFile`, `setXMLFilePath`, `openXMLFile`, `closeXMLFile`, `checkFirstLineXMLFile`, `loadXMLFile`, xml.c:27-171 and xml.c:254-265) is `fopen`/`fgets`/`fclose` plumbing. The model starts parsing at the cursor of a `Reader`. An `XML_File` handle is replaced by the arena and the root it points to.
- `getXMLInt` (`atoi`) and `getXMLDouble` (`strtod`, floating point) are library conversions. Only their lookup, `getXMLValue`, is modelled.
- `printXMLNode` is debug output, and `reachNextXMLTag` is dead code: its call in the parser is commented out.
- Logging, the stray `printf` calls and every allocation failure are left out; allocation always succeeds. Releases are modelled as removals from the arena, or as the count or flag a free or destroy method returns.
- `allocXMLAttribute`, `allocXMLTag` and `allocXMLNode` are not modelled separately: each creation function is modelled together with the initialisation it runs.
- Buffer overflows are not modelled. Attribute names and values, node values and path segments in `getXMLValue` are unbounded. Only the 200-byte tag name buffer and the 200-byte node name buffer of `getXMLNode` are bounded, as in the C code.
- Character encodings are not modelled. A `char` is one byte of the file; a multi-byte character appears as its bytes, and a `char` above 0xFF has no counterpart in the C program.
- NULL string arguments of the queries (`path`, `xml`) are not modelled. A path is a sequence that ends at its first NUL or at its end.
- A node or attribute whose name is NULL never matches a name in the queries. In the C code, `strcmp` on it is undefined.
- Attributes are values. Every attribute in the C code has one owner at a time, so two lists shared through a pointer are not modelled.
- Queries.GetNode: requires a path without `?`. The `?attr=value` predicate branch of `getXMLNode` (xml.c:404-440, xml.c:453-466) is not modelled, because it does not implement its own comment. `iAtBuf`, which is uninitialised on the remaining paths, is taken to be 0, as its comment intends.
- Nodes.Heap.AddChild: requires the parent's identifier to be below the child's whenever the append would go ahead. This rules out making an older node the child of a newer one, which the parser never does. It keeps cycles out of the arena.
- Nodes.Heap.Init: requires a node without parent and children. `initXMLNode` on a linked node would leave its neighbours pointing at a blank node, which the arena invariant excludes.
- Nodes.Heap.InitFromTag: requires a node without parent and children, for the same reason as `Init`.
- Attributes.ReadAttribute: EOF inside either read loop is a failure that returns NULL. In the C code these loops do not test for EOF and keep appending it to the buffer.

## Findings

| source | as written | input that shows it | evidently intended | confidence | as-written member | corrected member |
|---|---|---|---|---|---|---|
| node.c:162-168, node.c:202-208, node.c:239-244 | The second guard of `setXMLNodeName`, `setXMLNodeValue` and `addAttributeToXMLNode` tests `n == NULL` again. A NULL name or value therefore gets through and is dereferenced (`strlen(name)`, `strlen(value)`). A NULL attribute gets through too: it is dereferenced (`attr->next`) when the node already has attributes, and stored as the empty list otherwise (node.c:246-253). | `setXMLNodeName(NULL, n)` for a non-NULL node `n` | Refuse a NULL argument, as the guard's log message says | not executed | Nodes.NullArgumentProceeds | Nodes.SetterGuard |
