# Memento element tree and typed attribute reads

This project models the core of `XMLMemento`, a memento (a hierarchical
snapshot of state) backed by an XML DOM. A memento is a view onto one element of
a document. Through it a caller can create child elements, find children by tag
name, step to the parent, and read attributes as strings, booleans, 32-bit
integers or GUIDs.

The DOM is abstracted as an immutable tree (`Tree.Node`):

- an element has a tag name, a map from attribute names to text, and an ordered
  list of child nodes;
- every other kind of node (text, comment, CDATA section, processing
  instruction) is `Other` and is skipped by navigation.

A document is its document element. A memento is a `Path`: the child indices
that lead from the document element to the wrapped element. Child indices count
all child nodes, as `getChildNodes()` does. Two mementos wrap the same element
exactly when their paths are equal. This makes explicit what the Java code does
when each navigation call builds a new `XMLMemento` around the same shared
`Document`. The Java operations mutate that shared document. The model's
creating operations return the updated document together with the new view
(`Memento.Created`).

Modules:

- `Options`: `Option`, standing in for Java's `null` results.
- `Tree`: nodes, paths, path lookup (`At`), subtree replacement (`Replace`),
  and lemmas saying what a replacement changes and what it keeps.
- `Memento`: `createWriteRoot`, `createChild`, `createChildSmart`, `getChild`,
  `getChildren`, `getParent`, `getString`, `getBoolean`, `getInteger`, `getGUID`.
- `Ascii`, `BooleanText`: case mapping, `equalsIgnoreCase` and `new Boolean(String)`.
- `Decimal`: `new Integer(String)`. There are two definitions, proved equal:
  - the numeral grammar (`ParseInt`), with a leading `+` accepted as in Java 7 and later;
  - the JDK's negative-accumulation scan (`ParseIntScan`).
- `Hex`, `Guid`: brace stripping, lower-casing and the UUID text form of
  section 3 of RFC 4122. The canonical formatter (`UUID.toString`) is included
  as the parser's partner.

Two behaviours follow the code rather than what the interface's method names suggest:

- `getBoolean` is never absent when the attribute is present. `new Boolean(s)`
  returns `false` for any text other than "true" in some letter case.
- `getParent` on the document element is absent. Its parent node is the
  `Document`, and the cast to `Element` fails.

## Model

| member | source | states |
|---|---|---|
| `Memento.CreateWriteRoot` | src/java/XMLMemento.java:28-37 | the new document is a single element named `type` with no attributes or children; the returned view wraps it, and that view has no parent |
| `Memento.CreateChild` | src/java/XMLMemento.java:48-52 | a new empty element `type` becomes the receiver's last child; the receiver keeps its name, attributes and earlier children; positions outside the receiver's ancestor line are unchanged; ancestors keep name, attributes and child count; every existing view is still a view; the new view's parent is the receiver |
| `Memento.AppendAtFrame` | src/java/XMLMemento.java:50 | appending a child below one element leaves every position off its ancestor line untouched and keeps the shell of each strict ancestor |
| `Memento.CreateChildAppendsToChildren` | src/java/XMLMemento.java:48-52 | after `createChild(t)`, `getChildren(u)` is the old list, followed by the new view exactly when `u` is `t` |
| `Memento.CreateChildSmart` | src/java/XMLMemento.java:57-62 | returns the existing first child named `type` with the document unchanged, or else acts exactly as `createChild`; either way `getChild(type)` afterwards returns the view it returned, whose parent is the receiver |
| `Memento.CreateChildSmartIdempotent` | src/java/XMLMemento.java:57-62 | a second call with the same name returns the same view and leaves the document unchanged; the two calls add at most one child |
| `Memento.FirstNamedFrom` | src/java/XMLMemento.java:88-97 | the scan finds an element named `type` that no earlier element child matches, or reports that no child from the start position matches |
| `Memento.GetChild` | src/java/XMLMemento.java:79-101 | absent iff no child node is an element named `type`, which includes having no child nodes; otherwise the view of the first such element in document order, skipping non-element nodes |
| `Memento.AllNamedFrom` | src/java/XMLMemento.java:113-123 | the collected indices are strictly increasing, each names an element called `type`, and every matching child is among them |
| `Memento.ChildPathsOfMatches` | src/java/XMLMemento.java:125-131 | wrapping each collected index as a view yields views of elements, and every matching child's view is in the result |
| `Memento.GetChildren` | src/java/XMLMemento.java:104-131 | exactly the views of the element children named `type`, in document order and without repeats; the list is empty (never absent) when none match |
| `Memento.FirstNamedIsHeadOfAll` | src/java/XMLMemento.java:79-131 | the first-match scan returns the head of the filtered index list, and is absent iff that list is empty |
| `Memento.GetChildIsFirstOfChildren` | src/java/XMLMemento.java:79-131 | `getChild(t)` is present iff `getChildren(t)` is non-empty, and then equals its first entry |
| `Memento.AllNamedFromSnoc` | src/java/XMLMemento.java:113-123 | appending a node adds its index to the end of the filtered list iff the node is an element with the searched name |
| `Memento.GetParent` | src/java/XMLMemento.java:198-204 | absent exactly at the document element; otherwise the view one step up, whose child list holds the receiver's element at the receiver's index |
| `Memento.GetString` | src/java/XMLMemento.java:207-213 | present iff the key is set on the element, and then exactly the stored text |
| `Memento.GetBoolean` | src/java/XMLMemento.java:67-76 | absent iff `getString` is absent; otherwise true iff the lower-cased text is "true" |
| `Memento.GetInteger` | src/java/XMLMemento.java:174-183 | present iff the key is set and its text is an optionally signed decimal numeral whose value is in the 32-bit signed range; the value is the numeral's value |
| `Memento.GetGuid` | src/java/XMLMemento.java:159-171 | present iff the key is set and its text, without one pair of surrounding braces, is a UUID text; the result's canonical text is that text in lower case |
| `Memento.ConfigScenario` | src/java/XMLMemento.java:79-213 | on a "config" element with a text node and a "user" child: `getChild`/`getChildren` skip the text node; `getString` reads "2" and "ada"; `getInteger` is absent on "abc" and 2 on "2"; `getParent` is absent at the root and the root one level down |
| `BooleanText.ParseBoolean` | src/java/XMLMemento.java:72 | true iff the text lower-cases to "true"; any other text gives false, never failure |
| `BooleanText.ParseFormatBoolean` | src/java/XMLMemento.java:72 | "true" and "false" read back as their booleans, and "TRUE"/"True" read as true |
| `Decimal.ParseInt` | src/java/XMLMemento.java:178-182 | present iff the text is an optional `+`/`-` followed by at least one decimal digit and its value fits in 32 signed bits; the result is then exactly the numeral's value, and so always in range |
| `Decimal.ParseIntScan` | src/java/XMLMemento.java:179 | the JDK's digit-by-digit scan, with its negative accumulator and early overflow rejection, yields exactly `ParseInt`'s result |
| `Decimal.ParseFormatInt` | src/java/XMLMemento.java:179 | every 32-bit value is read back from its `Integer.toString` text |
| `Decimal.ParseIntRejectsNonNumerals` | src/java/XMLMemento.java:178-182 | "abc", the empty string, and a bare "-" or "+" read as absent |
| `Decimal.ParseIntSignsAndZeros` | src/java/XMLMemento.java:179 | a leading `+` and leading zeros are accepted: "+42" is 42 and "-007" is -7 |
| `Decimal.ParseIntOutOfRange` | src/java/XMLMemento.java:178-182 | the decimal text of one above the maximum or one below the minimum 32-bit value reads as absent |
| `Guid.ParseUuid` | src/java/XMLMemento.java:166 | present iff the text is 8-4-4-4-12 hex digits separated by hyphens; both halves fit in 64 bits, and the result's canonical text is the input in lower case, so texts that differ beyond letter case never yield the same UUID |
| `Guid.ParseFormatUuid` | src/java/XMLMemento.java:166 | every UUID is read back from its canonical text |
| `Guid.StripBraces` | src/java/XMLMemento.java:164-165 | removes exactly one surrounding `{` `}` pair, and only when the text both starts with `{` and ends with `}` |
| `Guid.DecodeGuid` | src/java/XMLMemento.java:163-170 | present iff the brace-stripped text is a UUID text; the result's canonical text is the brace-stripped text in lower case |
| `Guid.DecodeGuidIgnoresCase` | src/java/XMLMemento.java:166 | texts equal up to letter case decode identically |
| `Guid.DecodeGuidIgnoresBraces` | src/java/XMLMemento.java:164-165 | `"{" + x + "}"` decodes as `x` whenever `x` is not itself brace-wrapped |
| `Guid.DecodeGuidAnySpelling` | src/java/XMLMemento.java:159-171 | every spelling of a UUID, in any letter case, bare or brace-wrapped, decodes to that UUID |
| `Guid.DecodeGuidExample` | src/java/XMLMemento.java:159-171 | "{3FA85F64-5717-4562-B3FC-2C963F66AFA6}" decodes to the UUID whose canonical text is "3fa85f64-5717-4562-b3fc-2c963f66afa6" |

## Left out

- `createReadRoot` (src/java/XMLMemento.java:16-26) and `loadFromString` (src/java/XMLMemento.java:266-275): they parse XML from a file or a string. Parsing is library code, so it is outside the model.
- `getDouble` (src/java/XMLMemento.java:147-156): Java's floating-point text parsing is not modelled.
- `getChildFromPath`, `getChildrenFromPath`, `getName`, `getRoot`, `getTextData`, every `put*` method, `loadFromFile`, `saveToFile` and `saveToString`: in the source they return `null` or do nothing. No behaviour is invented for them.
- src/java/IMemento.java and src/java/IPersistable.java hold only signatures and the `NormalizeMode` enum.
- The `catch` in `createWriteRoot` for parser-configuration failures: those come from the environment and are not modelled.
- Detached elements are not modelled. The public constructor can wrap an element that is not attached to the document. For such an element `getParentNode()` is `null`, and casting `null` to `Element` succeeds, so `getParent` returns a memento wrapping `null` rather than `null`. Every view in the model is a path from the document element, so this case cannot arise.
- Memento.CreateWriteRoot: a tag name that is not a valid XML name makes `createElement` throw, and `createWriteRoot` then returns `null`. The XML Name production is not modelled, so every name is treated as valid.
- Memento.CreateChild: likewise, the `DOMException` that an invalid tag name raises is not modelled.
- Memento.CreateChildSmart: inherits the same assumption from `createChild`.
- Guid.ParseUuid: accepts only the strict 8-4-4-4-12 form of ASCII hex digits. `UUID.fromString` is more lenient in every Java version. It accepts other group widths. Its `Long.parseLong` fallback also accepts a leading sign inside a group (for example "+0000000-0000-0000-0000-000000000000") and non-ASCII hex digits. The model treats all of these texts as absent.
- Guid.DecodeGuid: lower-casing is ASCII only. Java's `toLowerCase` also maps non-ASCII letters, none of which is a hex digit or a hyphen.
- Memento.GetGuid: inherits both restrictions of `Guid.DecodeGuid`.
- Guid.FormatUuid: the two 64-bit halves are kept as unsigned values. Java stores them as signed `long`s with the same bits.
- Decimal.ParseInt: accepts only ASCII digits. `Integer.parseInt` also accepts other Unicode decimal digits.
- The integer decoder follows Java 7 and later, where `Integer.parseInt` accepts a leading `+`. Java 6 rejected it.
- Memento.GetInteger: inherits the ASCII-digit restriction of `Decimal.ParseInt`.
- BooleanText.ParseBoolean: case folding is ASCII only. Java's `equalsIgnoreCase` also folds non-ASCII characters.
- Every memento operation requires its path to lead to an element (`Tree.IsView`). Every memento that the modelled operations produce wraps an element reachable from the document element.
