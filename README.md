# XML feed to CSV converter — verified model

This project models the core of `convert.py`, a tool that turns an XML
product feed into a CSV file without a schema. The model starts from the
parsed document. It covers:

- **Item detection** (`detect_items`). In document order, find the element
  that has the most children sharing one tag, and return those children
  as the items. If no element has a child, the root's own children are
  returned instead.
- **Forced tag** (`--force-tag`). Every element of the tree carrying the
  given tag is an item. If none carries it, detection is used.
- **Leaf extraction** (`iter_leaves`). An element yields (key, value)
  candidates:
  - each non-blank attribute gives `prefix + tag + "@" + name` with its
    stripped value;
  - a childless element gives `prefix + tag` with its stripped text, when
    that text is non-empty;
  - an element with children passes the prefix `prefix + tag + "_"` down to
    them, and its own text is ignored.
- **Record flattening** (`flatten_item`). Candidates are grouped by key in
  first-seen order. Each key keeps its distinct values in first-seen order,
  joined with `" | "`.
- **Table rendering** (`write_csv`). The header is the union of all record
  keys, in first-seen order. Each record gives one line, with a cell per
  header that is `""` when the record lacks the key. With no records, the
  table is a single `no_data` header.
- **The main flow**: select the items, flatten each one, render the table.

The files:

- `tree.dfy` (module `Tree`): the element tree as a value and its
  pre-order traversal (`root.iter()`).
- `strings.dfy` (module `Strings`): Python's `str.strip()`, using the
  `str.isspace` character set, and `str.join`.
- `seqs.dfy` (module `Seqs`): order-preserving de-duplication. This is what
  the source's `seen`-set loops compute.
- `detect.dfy` (module `Detect`), `leaves.dfy` (module `Candidates`),
  `flatten.dfy` (module `Flatten`), `csv.dfy` (module `Csv`) and
  `convert.dfy` (module `Pipeline`): one module per part of the converter.

The loops of the source are imperative methods. Each method is proved equal
to a specification function, and the promised properties are proved about
those functions as lemmas. A Python dict is modelled as its keys in
insertion order next to a `map`, or as an ordered list of pairs.

Where the code and its prose description differ, the model follows the
code:

- Keys include the item's own tag. A `<name>` inside `<seller>` inside
  `<offer>` gives the key `offer_seller_name`, not `seller_name`.
- The fallback to the root's children happens only when the root has no
  children at all.
- When no tag repeats anywhere, detection picks the root's first child
  alone: a single-member group is found, so there is no fallback.
- An element with an empty tag leaves the prefix unchanged for its children.

## Model

| member | source | states |
|---|---|---|
| Detect.CountTags | convert.py:27-29 | the tally dictionary holds exactly the distinct child tags in first-seen order, each with its number of children |
| Detect.ScanParent | convert.py:26-32 | one outer iteration offers the element's tags, in dictionary order, to the best triple and replaces it only on a strictly greater count |
| Detect.DetectItems | convert.py:20-38 | the result equals the detection function and meets its description: the leading group's children and tag, or the root's children and tag when no element has children |
| Detect.ScanLeads | convert.py:25-32 | the scan's count is the largest group anywhere, its tag is None exactly when that count is 0, and otherwise the kept triple is the first element in document order, and its first tag in dictionary order, reaching that count |
| Detect.DetectionMeets | convert.py:33-38 | the detection function returns what the description of detect_items prescribes |
| Detect.DetectionShape | convert.py:33-38 | the items are the children of one element of the tree that carry the returned tag; there are as many as the largest group; they are empty exactly when the root has no children |
| Detect.DetectionMaximal | convert.py:26-32 | no element of the tree has more children with one tag than the number of detected items |
| Detect.DetectionTieBreak | convert.py:26-32 | on ties, the element earliest in document order wins, and within it the tag whose first child comes first |
| Detect.DetectionUnique | convert.py:20-38 | two results that both meet the description are equal |
| Detect.FallbackOnlyWhenChildless | convert.py:33-35 | the fallback is taken exactly when the root has no children |
| Detect.NoRepeatPicksFirstChild | convert.py:25-38 | with no repeated tag anywhere, the result is the root's first child alone, with its tag |
| Detect.GroupBound | convert.py:26-32 | every group of every element is at most the largest fanout of the traversal |
| Strings.TrimBlank | convert.py:48 | stripping yields "" exactly for strings made only of whitespace |
| Strings.TrimSlice | convert.py:49 | the stripped string is a slice of the input with only whitespace cut on either side, and it neither starts nor ends with whitespace |
| Strings.TrimIdempotent | convert.py:52 | stripping a stripped string changes nothing |
| Candidates.LeavesShape | convert.py:40-66 | every candidate key starts with prefix + tag, and every value is non-empty and stripped |
| Candidates.AttributeCandidate | convert.py:46-49 | an attribute yields the candidate (prefix+tag+"@"+name, stripped value) if and only if its value is not blank |
| Candidates.AttrSource | convert.py:46-49 | every attribute candidate comes from a non-blank attribute of the element and carries its stripped value |
| Candidates.TextCandidate | convert.py:51-58 | a childless element yields (prefix+tag, stripped text) if and only if that text is non-empty |
| Candidates.OwnKey | convert.py:53-66 | the key prefix + tag never occurs for an element with children; for a childless element it carries the stripped text |
| Candidates.LeavesShift | convert.py:61-66 | extracting under a longer prefix only prepends the extra prefix to every key |
| Candidates.NestedKeyExample | convert.py:61-66 | offer/seller/name with text " Acme " yields exactly the candidate ("offer_seller_name", "Acme") |
| Candidates.AttributeExample | convert.py:46-57 | a price element with currency "PLN", a blank note and text "10" yields ("price@currency", "PLN") then ("price", "10") |
| Flatten.Group | convert.py:72-74 | the bucket dictionary's keys are the distinct candidate keys in first-seen order, and each holds that key's values in order |
| Flatten.Unique | convert.py:79-84 | the kept values are the distinct values in first-seen order |
| Flatten.FlattenItem | convert.py:68-87 | the flattened record equals the merge of the element's candidates |
| Flatten.MergeKeyOrder | convert.py:76-87 | the record has one entry per distinct candidate key, without duplicates, in first-seen order |
| Flatten.MergeLookup | convert.py:76-87 | a candidate key maps to the join of its distinct values; any other key is absent |
| Flatten.MergeSingle | convert.py:79-86 | a key whose values are all the same value keeps that value unchanged |
| Flatten.MergeExample | convert.py:79-86 | the values a, b, a merge to "a \| b" |
| Flatten.FlatValuesNonEmpty | convert.py:68-87 | no value of a flattened record is empty |
| Flatten.FlatKeysStartWithTag | convert.py:68-87 | every key of a flattened record starts with the item's own tag |
| Csv.HeaderUnion | convert.py:98-105 | the header loop computes the keys of all records, in first-seen order, each once |
| Csv.WriteCsv | convert.py:89-112 | the written table is the no_data table for no records, and otherwise the header union and one rendered line per record |
| Csv.HeadersExact | convert.py:98-105 | the header has no duplicates and contains exactly the keys that occur in some record |
| Csv.HeadersFirstSeen | convert.py:98-105 | header columns come in the order of their keys' first appearance across the records |
| Csv.RenderedCells | convert.py:109-112 | each line has one cell per header: the record's value when it has the key, and "" when it does not |
| Csv.RenderedKeepsValues | convert.py:111-112 | each value of each record appears on its line, in the column of its key |
| Csv.RenderExample | convert.py:98-112 | records {a,b} and {b,c} give the header a,b,c and the lines 1,2,"" and "",3,4 |
| Pipeline.SelectItems | convert.py:129-136 | the selected items are the forced tag's elements when the tag is given and found, and the detected items otherwise |
| Pipeline.ForcedExact | convert.py:129-131 | a forced tag that is found selects exactly the elements of the tree with that tag |
| Pipeline.ForcedFallback | convert.py:132-136 | with no tag given, or one no element carries, the selection is the detected items |
| Pipeline.ForcedRootFirst | convert.py:131 | a root carrying the forced tag is the first item, before its descendants with that tag |
| Pipeline.Convert | convert.py:129-139 | the converter's output is the rendered table of the flattened selected items, in item order |
| Pipeline.OneLinePerItem | convert.py:138-139 | the table has one line per selected item, and it is the no_data table when nothing is selected |
| Pipeline.NoDataWhenChildless | convert.py:33-35 | without a forced tag, nothing is selected exactly when the root has no children |

## Left out

- Fetching the URL (`fetch_bytes`) and parsing the bytes (`ET.fromstring`) are left out. The model starts from the parsed tree, given as a parameter.
- Namespaces, comments, processing instructions and tail text are left out. Tags are plain strings, and tail text is never read by the converter.
- Attribute values are always strings, because the parser never produces `None` for them. The `val is not None` test is therefore always true.
- File output is modelled as the table to write. This leaves out directories, encoding, CSV quoting and the `no_data` file's layout.
- The command line, the environment variables, the messages on standard error and standard output, and the exit on a missing URL are left out.
- Candidates.OwnKey: stated only for elements with a non-empty tag. Under a parent with an empty tag, a child with an empty tag has the same key as its parent, so the property does not hold there.
- Whitespace for stripping is a fixed table of the characters `str.isspace` accepts. Python's Unicode database is not modelled beyond that table.
