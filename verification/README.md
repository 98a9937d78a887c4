# A verified model of aniparse's core

aniparse parses content sites: it routes a URL to the parser that serves its host, digs data out of
inline scripts and HTML, follows video links through delegated extractors, streams bytes through
chains of adapters, and takes hotfixes from a signed catalog while requests are running. This project
models the parts where a fast, stateful or streaming form has to agree with a simple meaning, and
proves that it does.

Each component has a module (or a few) with the same shape: the simple meaning as functions and
predicates, laws about that meaning as lemmas, and the program's own form (classes whose fields
change, loops over indices, pointers into a heap) as methods proved against it.

| modules | component | main results |
|---|---|---|
| `DomainLabels`, `DomainTrie` | host routing | the trie search is the linear longest-suffix search, after any adds and removes |
| `DomainStore`, `StoreProtocol`, `KeyOrder` | snapshots and edits | lookups answer from complete snapshots; no lost update; a stale edit never commits |
| `JsLexer`, `JsBalance`, `JsNormalize`, `JsMeaning`, `JsVar` | script literals | the scanner finds exactly the literals of a grammar; exactly when rewriting to JSON keeps every token's meaning; rewriting twice is rewriting once; exactly for which names the variable search misses nothing |
| `ResourceChain`, `ResourceAdapter` | streaming adapters | the block-wise recursion is function composition, failures and flushes included; pairwise nesting is flat composition |
| `VideoExtractor`, `Headers` | delegated extraction | first resolving chain in link order, call bound, deepest header values, adapter order |
| `Dom`, `DomText`, `HtmlText`, `HtmlColor` | trees and text | pointer walks are the recursive pre-order; two-pass text; nested runs |
| `Catalog`, `CatalogManager`, `SourceHolder`, `ResourceCache` | volatile catalog | state is a function of the last accepted catalog; caches agree with recomputation; exactly when they do as steps interleave |
| `CookieCodec`, `CookieRules`, `CookieStore`, `Decimal` | cookies | exact round-trip condition of the Netscape line and of a whole store; identity over runs; domain and path rules |
| `HeaderBlock`, `UrlEncode`, `UrlForm` | codecs | round trips, merge algebra, form bodies |
| `Timestamps`, `TimestampOrder`, `Calendar`, `Fraction` | ISO 8601 | acceptance is exactly a grammar; fractions, offsets and order |
| `Basics`, `Arithmetic` | shared | optional values, searching and splitting texts, division |

## How the model reads the program

- Bytes and characters are `char`s. Where the byte range matters (percent-encoding) they are restricted
  to values below 256; resource blocks are sequences of `bv8`.
- A stateful resource handle is a function of the blocks it was given so far. That covers every
  deterministic handle that stops at its first refused write, whatever it keeps between blocks.
- A store's value type is abstract, its statically declared domains are a function of the value, and the
  predicate that accepts a URL is a parameter.
- An ordered map is visited in the order of its keys (`KeyOrder`).
- A locked region is one atomic step. Classes such as `DomainStore.Store`, `SourceHolder.Holder` and
  `ResourceCache.Cache` model calls that do not overlap. The state machines beside them (`StoreProtocol`,
  and `Run` in `SourceHolder` and `ResourceCache`) take the steps of any number of threads in any order.
- The clock is a parameter: `now` and instants are counts of ticks, with any positive number of ticks to
  the second (`Arithmetic.Rate`).
- A DOM walk runs over nodes on the heap. The ghost parameter `t` is the tree that the links spell out,
  `reach` a set of nodes that holds it. The links determine `t` (`Dom.LinksDetermineTree`).
- Extracting one routed URL and routing one link are functions (`VideoExtractor.World`); the graph they
  form is arbitrary and may have cycles.

Where the code and what its comments say part, the model follows the code:

- When no link resolves, `extract_routed` gives back the extraction of the URL it was asked for, not a
  deeper one (`VideoExtractor.Answers`).
- `normalize_js_to_json` reads a template literal as code. Meaning is kept exactly when that makes it
  see no other single-quoted strings than the scanner does (`JsMeaning.NormalizeKeepsMeaning`,
  `JsMeaning.TemplateLosesMeaning`).
- `scan_json_var` resumes behind a rejected occurrence. That can skip a definition for exactly the names
  that overlap themselves outside identifiers (`JsVar.MissesNothing`).
- `view_for` hands out the whole source to an owner without overrides, so what it shows is not always
  what `scoped_to` would (`SourceHolder.SeenIsScoped`). A view loaded before a `set` and installed after
  it stays until the next one; `SourceHolder.CurrentIffPunctual` says exactly when that happens, and
  `SourceHolder.TimelyIsCurrent` what rules it out.
- The final trim of `from_html` can cut text off under a run's end (`HtmlText.TrimCutsRun`,
  `HtmlText.TrimKeepsRun`).
- An empty domain serves every host in the trie, while as a string suffix it matches only an empty host
  or one that ends in a dot (`DomainLabels.EmptyDomainDiffers`).
- A composed adapter passes on a descriptor that was moved from. Only its URL and headers are set anew,
  and its kind copied; the model promises nothing about the rest (`ResourceAdapter.Extras`).
- `to_netscape_line` is inverted by `parse_netscape_line` only on the cookies that
  `CookieCodec.Clean` describes, and `parse_header_block` recovers only headers that are
  `HeaderBlock.Clean`.
- A leap second parses to the second before it, so with a smaller fraction it comes out before that
  second (`TimestampOrder.OutOfOrderIsLeapSecond`).

## Model

| member | source | states |
|---|---|---|
| DomainLabels.LabelPrefixIsSuffix | include/aniparse/detail/DomainStore.hpp:101-109 | A non-empty domain's reversed labels begin the host's exactly when the domain is the host or a suffix of it behind a dot. |
| DomainLabels.EmptyDomainDiffers | benchmarks/ParserStoreBenchmark.cpp:50-65 | The trie's test and the string test differ exactly for an empty domain against a host that is neither empty nor ends in a dot. |
| DomainLabels.LabelsAreInjective | include/aniparse/detail/DomainStore.hpp:101-109 | Different domains have different label lists, so a trie node stands for one domain. |
| DomainLabels.MoreLabelsIsLonger | include/aniparse/detail/DomainScanner.hpp:195-203 | Among domains that match one host, the deeper node is the longer domain. |
| DomainTrie.GrownIsGood | include/aniparse/detail/DomainScanner.hpp:37-45 | An empty child added under a new label keeps links up and down consistent with the labels, and what is registered where. |
| DomainTrie.Scanner.AddChild | include/aniparse/detail/DomainScanner.hpp:26-45 | A new child is entered under its label with its parent link, and every other link stays consistent. |
| DomainTrie.Scanner.ChildFor | include/aniparse/detail/DomainScanner.hpp:37-40 | Finds the child under a label, or makes it. |
| DomainTrie.Scanner.FindOrCreate | include/aniparse/detail/DomainScanner.hpp:138-145 | Leads to the node of exactly these labels, creating missing ones, and registers nothing. |
| DomainTrie.Scanner.AddDomainParser | include/aniparse/detail/DomainScanner.hpp:172-175 | The scanner afterwards stands for its old registrations followed by this one. |
| DomainTrie.Scanner.FindNode | include/aniparse/detail/DomainScanner.hpp:147-157 | Finds the node of these labels exactly when there is one. |
| DomainTrie.Scanner.Descend | include/aniparse/detail/DomainScanner.hpp:159-170 | Stops at the deepest node whose labels begin the host's; the next label has no node. |
| DomainTrie.Scanner.RemoveDomainParser | include/aniparse/detail/DomainScanner.hpp:182-187 | The scanner afterwards stands for its old registrations without any copy of this one. |
| DomainTrie.ParsersAtWithout | include/aniparse/detail/DomainScanner.hpp:182-187 | Dropping a registration from the history erases that parser at its own labels and changes nothing at any other. |
| DomainTrie.ClimbingFindsBest | include/aniparse/detail/DomainScanner.hpp:195-203 | Climbing from the deepest node up, the first passing parser is the one the linear scan over all registrations picks; reaching the root in vain means that the scan finds none. |
| DomainTrie.Scanner.SearchAll | include/aniparse/detail/DomainScanner.hpp:195-203 | Returns what the linear scan over everything registered returns: most labels first, then the earliest registration. |
| DomainTrie.BestIsLinearMatch | benchmarks/ParserStoreBenchmark.cpp:50-65 | That scan over labels is the search over domain strings: the longest domain that is the host or a suffix of it at a dot and whose parser passes, ties to the earliest; nothing found means nothing serves. |
| DomainStore.AddDomains | include/aniparse/detail/DomainStore.hpp:122-126 | Registers one value under each domain of a list, in order. |
| DomainStore.RegisterEntry | include/aniparse/detail/DomainStore.hpp:119-130 | The scanner afterwards stands for its old registrations, then the value under its own domains, then the value under the extra ones of its identifier. |
| DomainStore.RegisteredIs | include/aniparse/detail/DomainStore.hpp:115-136 | Over any order of identifiers: a value is registered under a domain exactly when an entry of it holds the value and lists the domain. |
| DomainStore.RegisteredDomains | include/aniparse/detail/DomainStore.hpp:119-130 | In terms of the content alone: a value is registered under exactly the domains it declares and, besides, those that the overrides list for its identifier. |
| DomainStore.MatchIsFirstServed | include/aniparse/detail/DomainStore.hpp:64-72 | The linear match is the value served first: under the longest domain, declared or added, that serves the host and whose value accepts, ties to the first identifier. |
| DomainStore.ExactHostIsFirst | include/aniparse/detail/DomainStore.hpp:64-72 | When a value serves a host under the host itself, only a value registered at exactly that host is found. |
| DomainStore.StaticHostRoutes | include/aniparse/detail/DomainStore.hpp:119-130 | Overrides only add: a host that an accepting value declares itself is found at exactly that host, whatever the overrides are. |
| DomainStore.MakeSnapshot | include/aniparse/detail/DomainStore.hpp:115-136 | The snapshot's trie holds exactly what its content registers, in key order. |
| DomainStore.Snapshot.Find | include/aniparse/detail/DomainStore.hpp:64-72 | In any snapshot a reader has loaded, live or not: the value served first in its content, and none only when no domain, declared or added, serves the host with a value that accepts. |
| DomainStore.Store.constructor | include/aniparse/detail/DomainStore.hpp:39-40 | A new store is live with an empty snapshot; every snapshot that was ever live is complete. |
| DomainStore.Store.FindByHost | include/aniparse/detail/DomainStore.hpp:64-72 | The value served first in the live content: one that accepts, under the longest of its own and extra domains that is the host or a suffix of it at a dot, ties to the first identifier; none only when nothing serves the host. |
| DomainStore.Store.Commit | include/aniparse/detail/DomainStore.hpp:138-147 | Publishes a complete fresh snapshot of the content when the base is live; otherwise changes nothing. Every snapshot that was ever live stays complete. |
| DomainStore.Edit.constructor | include/aniparse/detail/DomainStore.hpp:196-198 | An edit starts from the live snapshot with no change made. |
| DomainStore.Edit.AddEntry | include/aniparse/detail/DomainStore.hpp:162-166 | Adds a value under a free identifier only, to the draft only. |
| DomainStore.Edit.RemoveEntry | include/aniparse/detail/DomainStore.hpp:172-179 | Removes the identifier from the draft and reports whether it was there. |
| DomainStore.Edit.Commit | include/aniparse/detail/DomainStore.hpp:185-191 | Succeeds once and only while the base is live; what is live then is the base with the edit's changes. |
| KeyOrder.LessIs | include/aniparse/detail/DomainStore.hpp:96-96 | Identifiers are visited in the order of words: where two first differ the smaller character decides, and a beginning comes first. |
| StoreProtocol.RunDraftsFollow | include/aniparse/detail/DomainStore.hpp:155-203 | In every interleaving each open draft is its base with its own changes, and a refused or committed one no longer has the live base. |
| StoreProtocol.CommitPublishes | include/aniparse/detail/DomainStore.hpp:138-147 | A commit publishes the draft exactly when the edit is open and its base is live; otherwise it publishes nothing. |
| StoreProtocol.NoLostUpdate | include/aniparse/detail/DomainStore.hpp:138-147 | In every interleaving, whatever gets published is one edit's changes made to the snapshot published just before it. |
| StoreProtocol.StaleNeverCommits | include/aniparse/detail/DomainStore.hpp:138-191 | Once an edit's base is no longer live, that edit publishes nothing in any continuation. |
| JsBalance.EmptiesUnwinds | src/html/JSParser.cpp:79-87 | If a stack of expected closers first empties at the last bracket, the brackets are the groups that the stack was waiting for. |
| JsBalance.NestedIsTransparent | src/html/JSParser.cpp:79-87 | Properly nested brackets leave the stack of expected closers as it was. |
| JsBalance.ScanLexes | src/html/JSParser.cpp:29-91 | A successful scan covers whole strings, comments and characters, and empties the stack at its last token. |
| JsBalance.LexedScans | src/html/JSParser.cpp:29-91 | A slice of whole tokens whose brackets empty the stack at its last token is scanned to its end, whatever follows. |
| JsBalance.ScanFindsLiteral | src/html/JSParser.cpp:29-91 | The scanner returns a length exactly when the prefix of that length is a balanced literal of the grammar: strings and comments closed, brackets one nested group. |
| JsBalance.ScanIsPrefixStable | src/html/JSParser.cpp:29-91 | Rescanning the slice alone, or before any other text, gives its length again. |
| JsBalance.LiteralPrefixIsUnique | src/html/JSParser.cpp:26-29 | At most one prefix of a text is a balanced literal. |
| JsBalance.SkipString | src/html/JSParser.cpp:35-51 | Skips to behind the closing quote, minding escapes, and reports a string that never ends. |
| JsBalance.SkipBlock | src/html/JSParser.cpp:62-72 | Skips a block comment and reports one that never ends. |
| JsLexer.StrLenIs | src/html/JSParser.cpp:35-51 | A string ends at the first of its quotes that stands behind an even number of backslashes, and never when there is none. |
| JsLexer.BlockLenIs | src/html/JSParser.cpp:62-72 | A block comment ends at the first star and slash behind its opening. |
| JsLexer.FrontIs | src/html/JSParser.cpp:35-72 | Three kinds of quotes open strings, two slashes or a slash and a star open comments, and all else is one character. |
| JsBalance.BracketsAre | src/html/JSParser.cpp:75-87 | Of all tokens the four brackets alone count, and braces close braces, square brackets square ones. |
| JsBalance.ScanBalanced | src/html/JSParser.cpp:29-91 | The index loop with its stack finds the literal that starts there, and returns zero only when no literal of any length starts there. |
| JsMeaning.NormalizedIsRewritten | src/html/JSParser.cpp:245-331 | On lexically closed text the loop works token by token, requoting single-quoted strings and copying all else, exactly when it takes for the opening of a string just the apostrophes at which the lexer sees one begin. |
| JsNormalize.RewrittenRelexes | src/html/JSParser.cpp:245-331 | The rewritten tokens, written one after the other, are read back as those tokens. |
| JsMeaning.NormalizeKeepsMeaning | src/html/JSParser.cpp:242-331 | For every lexically closed text: the result has the same tokens, comments included, each string decoding to the same characters and none single-quoted, exactly when loop and lexer see the same single-quoted strings. |
| JsNormalize.RequotedUnescapes | src/html/JSParser.cpp:272-300 | A requoted string escapes no apostrophe, which JSON would refuse. |
| JsMeaning.CopiesTo | src/html/JSParser.cpp:249-328 | Up to the first apostrophe that it takes for an opening, in whatever mode it starts, the loop copies. |
| JsMeaning.SafeReadsAlike | src/html/JSParser.cpp:242-331 | They do on every text without template literals, or with templates that hold no quote and no comment opener. |
| JsMeaning.NormalizeStaysBalanced | src/html/JSParser.cpp:245-331 | What was scanned as one balanced literal is, rewritten with its meaning kept, scanned as one again to its full length. |
| JsMeaning.NormalizeIsIdempotent | src/html/JSParser.cpp:245-331 | Rewriting a second time changes nothing, for every text whatever. |
| JsMeaning.TemplateLosesMeaning | src/html/JSParser.cpp:272-300 | A concrete template literal that the scanner accepts and that is rewritten into another string. |
| JsNormalize.NormalizeJsToJson | src/html/JSParser.cpp:245-331 | The index loop, with its inner loops over strings and comments, writes the rewritten text. |
| JsVar.OverlapIsNotWhole | src/html/JSParser.cpp:102-113 | An occurrence that overlaps an earlier one is no whole identifier, for names that overlap themselves only inside identifiers. |
| JsVar.IdentifierOverlaps | src/html/JSParser.cpp:102-113 | Every name made of identifier characters is such a name. |
| JsVar.WholeIsTried | src/html/JSParser.cpp:102-105 | Resuming behind each rejected occurrence skips no whole occurrence of such a name. |
| JsVar.AssignsOnce | src/html/JSParser.cpp:123-140 | The separator and the opening bracket behind a key are settled by the text. |
| JsVar.DefinedIffSpelled | src/html/JSParser.cpp:95-151 | A name is defined at a place exactly when the text around it reads: the name, quoted alike on both sides or else not part of a longer identifier; space; a colon or an equals sign that is neither comparison nor arrow; space; a literal. |
| JsVar.ScanJsonVar | src/html/JSParser.cpp:95-151 | Returns the literal given to the first defining occurrence among those tried, for an identifier the leftmost of all, and nothing only when no tried (for an identifier: no) occurrence defines the name. |
| JsVar.MissesNothing | src/html/JSParser.cpp:102-113 | For every non-empty name: in all texts the search gets to a definition no later than to the leftmost one, exactly when the name overlaps itself only inside identifiers. |
| ResourceChain.ComposedExtends | src/media/ResourceAdapter.cpp:29-68 | What a chain writes before its input ends is a beginning of all it writes; a failure on the way is final. |
| ResourceChain.BrokenIsNotFlushed | src/media/ResourceAdapter.cpp:33-42 | After a failure no stage is flushed. |
| ResourceChain.ChainedHandle.UpdatePrefix | src/media/ResourceAdapter.cpp:61-68 | One block pushed through the first so many stages, by recursion through forwarding outputs, delivers what those stages composed have to deliver by now. |
| ResourceChain.ChainedHandle.Final | src/media/ResourceAdapter.cpp:33-42 | Flushing from the innermost stage out delivers the composition of the whole stages. |
| ResourceChain.ChainedHandle.Deliver | src/media/ResourceAdapter.cpp:29-42 | For every chunking, updates then final deliver exactly the blocks of the last stage's stream through the one before it down to the first, each stage its updates and then its flush; also which blocks arrive before a failure. |
| ResourceChain.NestedThrough | src/media/ResourceAdapter.cpp:29-68 | A chain used as one handle passes a stream as its handles do in turn. |
| ResourceChain.NestedIsFlat | src/media/ResourceAdapter.cpp:29-68 | A chain inside a chain is the flat chain. |
| ResourceChain.FirstIsOutermost | src/media/ResourceAdapter.cpp:33-42 | The first handle of a chain is the last that a stream passes: it works on what the rest of the chain puts out. |
| ResourceChain.StatelessThrough | src/media/ResourceAdapter.cpp:29-68 | A handle without state puts out the image of each block in order and then its flush, which a broken stream does not get. |
| ResourceAdapter.Open | src/media/ResourceAdapter.cpp:78-104 | Each adapter prepares the request the one before it left; the first failure is the result; no, one or several handles are joined. |
| ResourceAdapter.ComposedRealizes | src/media/ResourceAdapter.cpp:94-103 | The opened composition fails, asks and streams as the adapters in turn do. |
| ResourceAdapter.PairwiseIsFlat | src/media/ResourceAdapter.cpp:112-122 | Composing two at a time behaves as one flat composition of the adapters that are not null, outermost first, and is null exactly when all are. |
| ResourceAdapter.FirstAdapterIsOutermost | src/media/ResourceAdapter.cpp:78-104 | One adapter at a time: the others see the request that the first prepared, and the kind; any failure is the result; and what they put out goes through the first adapter's handle, if it has one. |
| ResourceAdapter.InnerHandleIsFirst | src/media/ResourceAdapter.cpp:94-103 | Of two handles the inner adapter's sees the stream first, and the outer one's what that puts out. |
| VideoExtractor.ExtractRouted | src/video/VideoExtractor.cpp:22-53 | On any graph of links the search ends, makes at most 1 + b + ... + b^n extractions when n hops are left, and returns streams exactly when a chain through stream-less extractions reaches some, direct or with no hop beyond the allowed depth, taking the first such chain in link order; otherwise it returns its own extraction. |
| VideoExtractor.NotAfterIs | src/video/VideoExtractor.cpp:37-51 | Link order compares chains like words: the first link where they part decides, and a chain comes before those it begins. |
| VideoExtractor.AssembledHeaders | src/video/VideoExtractor.cpp:47-47 | On a resolved chain each header has all its values from the deepest extraction that sets it. |
| VideoExtractor.AssembledAdapter | src/video/VideoExtractor.cpp:43-49 | The streams and links are the last extraction's, the adapter the pairwise composition along the chain. |
| VideoExtractor.AssembledAdapterIsFlat | src/video/VideoExtractor.cpp:48-48 | That adapter behaves as the flat composition of the chain's adapters, outermost first. |
| VideoExtractor.PowerSumStep | src/video/VideoExtractor.cpp:32-42 | The bound on extractions unfolds as the search does: one call and a bounded number of smaller searches. |
| Headers.MergedValues | src/types/Headers.cpp:60-74 | A merge keeps all values of a name the list had, and takes all values of a name it lacked. |
| Headers.MergeIsAssociative | src/types/Headers.cpp:60-74 | Merging in missing headers is associative. |
| Headers.MergeIsIdempotent | src/types/Headers.cpp:60-74 | Merging the same headers in again changes nothing. |
| Headers.WithoutValues | src/types/Headers.cpp:54-58 | Erasing a name removes all its values, of any letter case, and no other name's. |
| Headers.SameIsUpToCase | src/types/Headers.cpp:89-99 | Two names are one header exactly when they differ at most in the case of ASCII letters. |
| Headers.EntryByEntry | src/types/Headers.cpp:54-74 | Merging and erasing decide entry by entry, keep the order, and change no entry they keep. |
| Headers.HeaderList.MergeMissing | src/types/Headers.cpp:60-74 | The loop over the original entries computes the merge. |
| Headers.HeaderList.Erase | src/types/Headers.cpp:54-58 | Removes every entry of the name and returns how many there were. |
| Headers.HeaderList.Set | src/types/Headers.cpp:45-48 | Replaces all entries of the name by one at the end. |
| HeaderBlock.ParsedInvertsBlock | src/types/Headers.cpp:110-150 | Parsing the written lines, each ended by CRLF, recovers the headers exactly when every one of them is clean. |
| HeaderBlock.ParsedIsClean | src/types/Headers.cpp:118-150 | Nothing but clean headers is read from any block. |
| HeaderBlock.LineIsRead | src/types/Headers.cpp:118-150 | A line is name, colon and value, whatever spaces and tabs stand around the value, with or without a carriage return. |
| HeaderBlock.LineIsSkipped | src/types/Headers.cpp:118-150 | A line without a colon or without a name is skipped. |
| HeaderBlock.ToHeaderLines | src/types/Headers.cpp:110-116 | One line a header, in order. |
| HeaderBlock.ParseHeaderBlock | src/types/Headers.cpp:118-150 | The loop over lines reads the headers that the block's meaning lists. |
| Dom.NodeWalk.constructor | src/html/DOMNode.cpp:75-81 | A new walk has everything below the root ahead of it. |
| Dom.NodeWalk.Next | src/html/DOMNode.cpp:104-122 | Each step drops exactly the current node from what is ahead in pre-order; at the end of the subtree the walk ends, whatever siblings and parents the root has. |
| Dom.ElementWalk.constructor | src/html/DOMElement.cpp:380-390 | A new walk has exactly the elements below the root ahead of it. |
| Dom.ElementWalk.Next | src/html/DOMElement.cpp:419-436 | One step of the raw links drops exactly the current node from what is ahead. |
| Dom.ElementWalk.WalkUntilElement | src/html/DOMElement.cpp:438-443 | Moves to the first element ahead and skips none. |
| Dom.ElementWalk.Increment | src/html/DOMElement.cpp:400-411 | Drops exactly the current element from the elements ahead: the walk is the node walk filtered to elements. |
| Dom.EachOnce | src/html/DOMNode.cpp:104-122 | No node occurs twice among those a walk visits. |
| Dom.LinksDetermineTree | src/html/DOMNode.cpp:104-122 | The links spell out at most one tree, so what a walk visits is settled by the heap. |
| Dom.CollectMatching | src/html/DOMElement.cpp:80-92 | Lists every accepted element below the root, in document order. |
| Dom.FindElement | src/html/DOMElement.cpp:189-211 | Finds the first element that the full list would hold, and none when it is empty. |
| DomText.CollapsedConcat | src/html/DOMElement.cpp:307-324 | Collapsing carries over text nodes: the whole is the pieces, each begun with the flag the last one left. |
| DomText.TextIsTidy | src/html/DOMElement.cpp:326-378 | The text has no leading, trailing or doubled space, no whitespace but the space and one newline for each BR, and every other character in order. |
| DomText.CollapsedIsWritten | src/html/DOMElement.cpp:307-324 | Each item writes for itself: a break its newline, ink itself, a plain space itself exactly when some ink stands before it with no other plain space between, other whitespace nothing. |
| DomText.TextIsWritten | src/html/DOMElement.cpp:326-378 | The text is all that is written, without one space at its very end. |
| DomText.WordsStayApart | src/html/DOMElement.cpp:307-324 | Two words with any number of spaces between them stay apart by exactly one. |
| DomText.TextHasTheInk | src/html/DOMElement.cpp:326-378 | Of the nodes below, the text has all characters of the text nodes that are no whitespace, in order, and one newline for each BR element. |
| DomText.Measure | src/html/DOMElement.cpp:332-347 | The measuring pass counts the length of the collapsed text. |
| DomText.Fill | src/html/DOMElement.cpp:349-369 | The filling pass writes exactly the collapsed text into a buffer of the measured length, to its end and never past it. |
| DomText.GetText | src/html/DOMElement.cpp:326-378 | Returns the collapsed text of all below the element without trailing spaces. |
| HtmlText.RunsAreNested | src/utility/HtmlText.cpp:89-131 | Every run is non-empty and within the text, and runs come in post-order: of any two the earlier lies inside the later or wholly before it, so that they are nested or disjoint. |
| HtmlText.NoThreeNewlinesRenderedAll | src/utility/HtmlText.cpp:84-117 | While no text node holds a newline the output never has three newlines in a row. |
| HtmlText.RenderedAllKeepsText | src/utility/HtmlText.cpp:89-131 | Newlines aside, the rendered text is that of the text nodes, in document order and complete, but for what is inside a BR. |
| HtmlText.BrAdds | src/utility/HtmlText.cpp:103-110 | A BR of any letter case adds one newline, unless the text ends in a blank line, and no more. |
| HtmlText.BlockAdds | src/utility/HtmlText.cpp:111-116 | P, DIV and LI start on a line of their own and end it, around what is below them, and put no mark themselves. |
| HtmlText.InlineAdds | src/utility/HtmlText.cpp:118-129 | Any other element adds no text, and its marks only over text that is not empty. |
| HtmlText.MarksAre | src/utility/HtmlText.cpp:21-29 | Which marks an element puts: A with a non-empty href a link; I and EM, B and STRONG, S, DEL and STRIKE their styles; a declared color its color; in this order. |
| HtmlText.TidiedIs | src/utility/HtmlText.cpp:159-162 | The final trim takes off newlines, spaces and tabs at the end and nothing else. |
| HtmlText.TrimKeepsRun | src/utility/HtmlText.cpp:159-162 | After the trim a run still lies in the text exactly when some character from its last one on is not blank. |
| HtmlText.TrimCutsRun | src/utility/HtmlText.cpp:159-162 | A concrete tree whose run ends behind the trimmed text. |
| HtmlText.Walk | src/utility/HtmlText.cpp:89-131 | The recursion over child links renders the children in order. |
| HtmlText.AddMarks | src/utility/HtmlText.cpp:123-129 | An element puts its link, then its style, then its color on its range. |
| HtmlColor.ColorOf | src/utility/HtmlText.cpp:65-80 | The loop over declarations finds the color attribute if it reads as a color, else the first declaration of the style that does. |
| HtmlColor.ColorIsRead | src/utility/HtmlText.cpp:65-80 | The color attribute counts when it reads as a color; only otherwise does the style, by its first declaration that sets one. |
| HtmlColor.DeclarationIs | src/utility/HtmlText.cpp:69-77 | A declaration sets the color exactly when its property, blanks aside, is "color" and what is behind the colon reads as one. |
| HtmlColor.DeclarationNeedsColon | src/utility/HtmlText.cpp:75-76 | One without a colon sets nothing. |
| HtmlColor.TrimmedIs | src/utility/HtmlText.cpp:31-37 | The trim takes all blanks off both ends and nothing else. |
| HtmlColor.ReadsAsColor | src/utility/HtmlText.cpp:46-63 | What reads as a color: blanks aside, a number sign and three, four, six or eight hexadecimal digits. |
| HtmlColor.ColorRoundTrip | src/utility/HtmlText.cpp:46-63 | Eight hexadecimal digits spell every color, six every opaque one. |
| HtmlColor.ShortForm | src/utility/HtmlText.cpp:46-63 | The three-digit form means what it means with each digit doubled. |
| HtmlText.FromHtml | src/utility/HtmlText.cpp:167-187 | Renders all below the element and trims the text, not the runs. |
| Catalog.HostOfUrl | src/catalog/CatalogManager.cpp:22-28 | The host of scheme, host and what follows (nothing, a path or a port) is that host. |
| Catalog.HostOfBareUrl | src/catalog/CatalogManager.cpp:22-28 | So is that of a text without a scheme. |
| Catalog.DecodeAnswers | src/catalog/Catalog.cpp:14-51 | A payload is accepted exactly when it verifies, parses, has version 1 and a revision that, read as 64 bits without sign, is above the least one; which error it gets otherwise. |
| Catalog.HostOfUrlText | src/catalog/CatalogManager.cpp:22-28 | The cuts at "://", '/' and ':' compute the host. |
| Catalog.UnionMirrorHosts | src/catalog/CatalogManager.cpp:33-45 | Grows each entry's list by the hosts of its mirrors that it lacks, in order. |
| Catalog.UnionCanonicalHosts | src/catalog/CatalogManager.cpp:50-60 | Grows each entry's list by the host of its canonical origin if it lacks it. |
| Catalog.ParserDomainsAre | src/catalog/CatalogManager.cpp:63-72 | An accepted catalog makes routable exactly its domains, its mirrors' hosts and its canonical hosts. |
| Catalog.ExtractorDomainsAre | src/catalog/CatalogManager.cpp:80-84 | And for extractors exactly its domains for them and their mirrors' hosts. |
| Catalog.MirrorHostRoutes | src/catalog/CatalogManager.cpp:30-45 | With a catalog's domains in force, the host of each mirror of a registered parser that accepts finds a parser, registered at exactly that host. |
| Catalog.StateIsLastAccepted | src/catalog/CatalogManager.cpp:63-140 | After any run of applies, resets and parser edits, revision and overrides are those of the last accepted catalog since the last reset. |
| Catalog.OrderDoesNotMatter | src/catalog/CatalogManager.cpp:63-140 | Runs with the same catalog events and the same parser events end alike, however the two are interleaved. |
| Catalog.RevisionRises | src/catalog/Catalog.cpp:47-51 | Between resets an accepted catalog raises the revision and a rejected one changes nothing at all. |
| CatalogManager.Services.Install | src/catalog/CatalogManager.cpp:85-103 | Every part that is there shows the new overrides, and all caches are empty. |
| CatalogManager.Refresh | src/ParserStore.cpp:41-45 | Replaces the extra domains in one committed edit and keeps the registered values. |
| CatalogManager.Manager.Apply | src/catalog/CatalogManager.cpp:63-111 | A rejected catalog changes no part. An accepted one is in force: each store routes exactly the hosts its part names, each holder shows its own field of the catalog, and caches are dropped; a holder that serves parsers and extractors alike shows the extractors' field. Either way this is the step of the run model. |
| CatalogManager.Manager.Reset | src/catalog/CatalogManager.cpp:113-140 | Puts empty overrides in force everywhere, drops caches, and sets the revision to zero; registered values stay. |
| SourceHolder.SeenIsIsolated | include/aniparse/html/SelectorSource.hpp:123-135 | What an owner sees depends on the shared table and its own scope only. |
| SourceHolder.SeenIsScoped | include/aniparse/html/SelectorSource.hpp:189-192 | Exactly when what an owner sees equals scoped_to on the current source. |
| SourceHolder.SeenByKey | src/html/SelectorSource.cpp:50-60 | Key by key: an owner with overrides sees its own entry over the shared one among selectors, and its own entries alone among patterns; anyone else the shared table. |
| SourceHolder.Holder.Set | include/aniparse/html/SelectorSource.hpp:175-180 | Swaps the source in, a null one as an empty one, and drops all caches. |
| SourceHolder.Holder.ViewFor | include/aniparse/html/SelectorSource.hpp:189-205 | After any calls the view is the one recomputed from the current source. |
| SourceHolder.Holder.SetFor | include/aniparse/utility/RegexSource.hpp:219-237 | After any calls the built set is the one built from the current source's view, and is cached. |
| SourceHolder.ViewsArePublished | include/aniparse/html/SelectorSource.hpp:175-235 | In every interleaving each cached or returned view is that of some source published so far, and each cached set was built from such a view. |
| SourceHolder.CachedUntilClear | include/aniparse/html/SelectorSource.hpp:194-204 | In every interleaving a cached view stays the same until the next clear. |
| SourceHolder.StepStaysCurrent | include/aniparse/html/SelectorSource.hpp:189-235 | Between sets, one step leaves all cached views and sets current exactly when what it installs, if anything, is what the current source would give. |
| SourceHolder.CurrentIffPunctual | include/aniparse/html/SelectorSource.hpp:175-235 | In every interleaving the caches are current whenever no set is under way, exactly when every step taken then is of that kind. |
| SourceHolder.TimelyIsCurrent | include/aniparse/html/SelectorSource.hpp:175-235 | If no call is overtaken by a set between its load and its install, the caches are current whenever no set is under way. |
| ResourceCache.Cache.Get | include/aniparse/cache/ResourceCache.hpp:73-91 | Returns the stored value, or the factory's, which it stores; no other key changes. |
| ResourceCache.OneValueBetweenClears | include/aniparse/cache/ResourceCache.hpp:73-112 | In every interleaving, while a key is not dropped every get of it returns one value: the one stored at the start, or else the one that the first install of the key brought. |
| ResourceCache.ResultsAgree | include/aniparse/cache/ResourceCache.hpp:73-112 | Any two results of one key between two drops are equal. |
| CookieCodec.ParsedInvertsLine | src/net/CookieStore.cpp:85-152 | Reading a cookie's line gives the cookie back exactly when its domain, path and name are free of tabs, its expiry is none or a whole, non-zero number of seconds that fits 64 bits, and its domain does not look prefixed when it is not. |
| CookieCodec.ParsedIsClean | src/net/CookieStore.cpp:85-127 | Nothing but such cookies is read from any line. |
| CookieCodec.ReadWithSixTabs | src/net/CookieStore.cpp:93-109 | A line is a cookie exactly when it has six tabs or more. |
| CookieCodec.LineColumns | src/net/CookieStore.cpp:129-152 | The seven columns of a line: prefix and domain, TRUE or FALSE for subdomains, path, TRUE or FALSE for secure, expiry, name, value. |
| CookieCodec.ExpiryColumn | src/net/CookieStore.cpp:129-152 | The fifth column: 0 without an expiry, else the digits of its whole seconds, rounded toward zero, behind a minus before the epoch. |
| CookieCodec.ColumnsRead | src/net/CookieStore.cpp:110-127 | What each column means when it is read, the HttpOnly prefix and a zero expiry included. |
| CookieCodec.ParseNetscapeLine | src/net/CookieStore.cpp:85-127 | The loop over fields reads what the line's meaning says. |
| CookieCodec.ToNetscapeLine | src/net/CookieStore.cpp:129-152 | The appends write the seven fields with tabs between them. |
| Decimal.ScannedPrinted | src/net/CookieStore.cpp:119-123 | Printing and scanning a number is the identity on 64-bit numbers, and zero beyond. |
| Decimal.ScannedPrefix | src/net/CookieStore.cpp:119-123 | Leading digits count, behind a minus or not, whatever follows; no number, or one beyond 64 bits, is zero. |
| CookieRules.DomainRule | src/net/CookieStore.cpp:47-68 | A cookie matches a host exactly when, letter case aside, the host's labels from the last on are the domain's, or begin with them where subdomains are covered. |
| CookieRules.DottedDomain | src/net/CookieStore.cpp:47-68 | A leading dot is no part of the domain, and covers subdomains whatever the flag. |
| CookieRules.PlainDomain | src/net/CookieStore.cpp:47-68 | Without a dot the flag decides. |
| CookieRules.PathRule | src/net/CookieStore.cpp:69-83 | A scope covers a path exactly when its segments begin the path's, and properly so when it ends in a slash; an empty scope and "/" cover all. |
| CookieStore.PutReplaces | src/net/CookieStore.cpp:191-200 | Setting a cookie keeps identities unique, replaces the one of its identity in place, or is appended when there is none. |
| CookieStore.PutOnFields | src/net/CookieStore.cpp:39-41 | A cookie of another name, domain or path stays where it is; one equal in all three is replaced; no two agree in all three. |
| CookieStore.CarriedOnFields | src/net/CookieStore.cpp:168-189 | A request carries exactly the cookies whose expiry is none or later than now, that do not ask for a secure transport in vain, and whose domain and path match. |
| CookieStore.PruningIsUnseen | src/net/CookieStore.cpp:168-189 | Dropping what has expired changes no later answer. |
| CookieStore.RestoredInvertsSaved | src/net/CookieStore.cpp:207-252 | Restoring the saved lines gives the same cookies exactly when all of them are clean. |
| CookieStore.RestoringMayRepeat | src/net/CookieStore.cpp:241-252 | Restored lines may repeat an identity. |
| CookieStore.RunIsUnique | src/net/CookieStore.cpp:168-252 | Over every run of set, clear and reads, and of reloads when the cookies set are clean, each identity is stored at most once, and each stored cookie is the last one set under its identity. |
| CookieStore.Store.Set | src/net/CookieStore.cpp:191-200 | The search and replacement put the cookie: only one equal in name, domain and path gives way to it, all others stay, and identities stay unique. |
| CookieStore.Store.CookiesFor | src/net/CookieStore.cpp:168-189 | Prunes exactly the expired cookies and returns, in order, exactly the unexpired ones whose domain, path and transport match. |
| CookieStore.Store.FindByName | src/net/CookieStore.cpp:154-161 | Finds the first cookie of that name, and none only when there is none. |
| CookieStore.Store.Serialize | src/net/CookieStore.cpp:207-215 | One line a cookie, in order. |
| CookieStore.Store.Deserialize | src/net/CookieStore.cpp:241-252 | The store becomes the cookies on the lines that are cookies. |
| UrlEncode.DecodedComponent | include/aniparse/utility/UrlEncode.hpp:31-119 | Decoding inverts encoding on all byte strings. |
| UrlEncode.ComponentIs | include/aniparse/utility/UrlEncode.hpp:31-46 | Byte by byte: letters, digits and - . _ ~ stay, every other byte becomes a percent sign and two upper-case digits. |
| UrlEncode.UriIs | include/aniparse/utility/UrlEncode.hpp:60-86 | In a URI its delimiters and the percent sign stay as well. |
| UrlEncode.EscapeIsRead | include/aniparse/utility/UrlEncode.hpp:97-119 | A percent sign and two digits of either case are the byte they name. |
| UrlEncode.OthersAreCopied | include/aniparse/utility/UrlEncode.hpp:97-119 | Whatever is not such an escape is copied. |
| UrlEncode.DecodedUri | include/aniparse/utility/UrlEncode.hpp:60-86 | Encoding a whole URI does not change what it decodes to, malformed escapes included. |
| UrlEncode.UriIsIdempotent | include/aniparse/utility/UrlEncode.hpp:60-86 | Encoding a URI changes nothing exactly on URI characters, and so nothing a second time. |
| UrlEncode.UrlEncode | include/aniparse/utility/UrlEncode.hpp:31-46 | The loop encodes a component. |
| UrlEncode.UrlEncodeUri | include/aniparse/utility/UrlEncode.hpp:60-86 | The loop encodes a URI. |
| UrlEncode.UrlDecode | include/aniparse/utility/UrlEncode.hpp:97-119 | The index loop decodes, leaving malformed and truncated escapes as they are. |
| UrlForm.ParamsOfBody | include/aniparse/types/Request.hpp:172-183 | Splitting a form body at '&' and '=' and decoding recovers every list of parameters. |
| UrlForm.BodyIs | include/aniparse/types/Request.hpp:172-183 | Each parameter is its encoded key, "=" and its encoded value, with "&" between parameters. |
| UrlForm.ToUrlencoded | include/aniparse/types/Request.hpp:172-183 | The loop writes the body. |
| UrlForm.SetValues | include/aniparse/types/Request.hpp:77-84 | Setting replaces the first value under the key or adds one; later values of the key and all other keys stay. |
| UrlForm.WithoutValues | include/aniparse/types/Request.hpp:104-108 | Removing a key removes all its values and no other's. |
| UrlForm.UrlParameters.Set | include/aniparse/types/Request.hpp:77-84 | The search and overwrite set the parameter. |
| UrlForm.UrlParameters.Remove | include/aniparse/types/Request.hpp:104-108 | Removes every pair of the key and returns how many there were. |
| UrlForm.UrlParameters.Get | include/aniparse/types/Request.hpp:118-123 | The first value under the key, if any. |
| Timestamps.AcceptsItsGrammar | src/utility/Time.cpp:169-197 | A text is accepted exactly when some stamp of the grammar is spelled that way, and that stamp is then the only one. |
| Timestamps.FullSpelling | src/utility/Time.cpp:169-197 | How a stamp with all its parts is spelled. |
| Timestamps.ShortSpellings | src/utility/Time.cpp:169-197 | What may be left out: the time, the zone, its minutes and its colon. |
| Timestamps.ClockRanges | src/utility/Time.cpp:73-98 | Two-digit hours, minutes and seconds are a time exactly up to 23, 59 and 60. |
| Timestamps.ZoneRanges | src/utility/Time.cpp:128-165 | A signed two-digit offset is one exactly up to 23 hours and 59 minutes. |
| Timestamps.TimeMark | src/utility/Time.cpp:169-185 | Between date and time stands T or a space. |
| Timestamps.ZoneAndFractionMarks | src/utility/Time.cpp:98-139 | The zone letter is Z of either case; a point or a comma begins a fraction. |
| Timestamps.TakeDigits | src/utility/Time.cpp:17-35 | Takes exactly so many digits, or nothing. |
| Timestamps.TakeFraction | src/utility/Time.cpp:103-121 | The loop over scale and fraction adds up what the fraction means in ticks. |
| Timestamps.TakeZone | src/utility/Time.cpp:128-165 | Reads a zone to the end of the text: nothing, a letter, or an offset, which a minus makes negative. |
| Timestamps.ParseIso8601 | src/utility/Time.cpp:169-197 | Gives the instant of the stamp the text spells, and nothing when it spells none. |
| Calendar.NextDayIsOneLater | src/utility/Time.cpp:63-69 | Consecutive dates are one day apart, over month, year and leap-year ends; the epoch is day zero. |
| Calendar.DaysInOrder | src/utility/Time.cpp:63-69 | Dates and day numbers are ordered alike. |
| Calendar.ClosedForm | src/utility/Time.cpp:63-69 | Counting years by their lengths gives the Gregorian closed form. |
| Calendar.MonthStarts | src/utility/Time.cpp:63-69 | On which day of its year each month begins. |
| Calendar.DatesFillMonths | src/utility/Time.cpp:63-69 | A date is a day of one of twelve months, each as long as the next one begins later. |
| Fraction.FractionIsBelow | src/utility/Time.cpp:103-121 | A fraction stays below one second at any tick rate. |
| Fraction.DecimalAtPowersOfTen | src/utility/Time.cpp:103-121 | The loop computes the decimal fraction truncated to ticks for all digits exactly when the tick rate is a power of ten. |
| Fraction.FractionIsTruncated | src/utility/Time.cpp:103-121 | At such a rate every fraction is the decimal one, truncated. |
| TimestampOrder.EqualOffsets | src/utility/Time.cpp:143-196 | Stamps with one fraction name the same instant exactly when they fall on the same second of UTC, however their offsets are spelled. |
| TimestampOrder.OffsetShifts | src/utility/Time.cpp:143-196 | An instant with an offset of + is that much earlier than the same clock in UTC, and with - that much later. |
| TimestampOrder.SpellingsAgree | src/utility/Time.cpp:128-165 | Offsets that differ in spelling only give equal instants; no zone is UTC. |
| TimestampOrder.ClockCountsFromMidnight | src/utility/Time.cpp:73-124 | In UTC the clock counts from the date's midnight; a leap second counts as the one before it. |
| TimestampOrder.MidnightsAreDaysApart | src/utility/Time.cpp:169-197 | Midnights count whole days from the epoch. |
| TimestampOrder.LessFraction | src/utility/Time.cpp:103-121 | Fractions of one length come out in textual order. |
| TimestampOrder.OutOfOrderIsLeapSecond | src/utility/Time.cpp:94-121 | Of two stamps of one layout the one earlier as a text is later as an instant exactly when both name the same minute, the one its second 59, the other its second 60 with a smaller fraction. |
| TimestampOrder.TextOrderIsTimeOrder | src/utility/Time.cpp:169-197 | So stamps of one layout without a fractional leap second never parse out of textual order. |
| TimestampOrder.OnlyCoarseClocksKeepOrder | src/utility/Time.cpp:98-101 | All stamps of one layout keep their order exactly on clocks whose ticks are longer than a tenth of a second. |

## Left out

- JsMeaning.NormalizeStaysBalanced: stated while meaning is kept. Text that the loop misreads may stay balanced or not; that depends on all that follows the misread apostrophe.
- JsVar.ScanJsonVar: the leftmost-of-all part is stated for names that overlap themselves only inside identifiers, which every identifier does; JsVar.MissesNothing shows that this is as far as it holds. For other names the result is described by the occurrences tried.
- `scan_call_argument`, `skip_call_trivia` and `find_json_call`: the same scanner with parentheses and a counter.
- Dom.FindElement: the attribute and class predicates are an arbitrary predicate on nodes.
- HtmlText.Walk: run offsets are not cut to the width of an `int`.
- HTML parsing, CSS selectors and URL parsing: the model starts from a built tree and from a host string. The retry of `from_html` on unparsable text is not part of this model.
- Catalog.StateIsLastAccepted: whether a signature verifies and what a payload decodes to are inputs; the order of the decoder's rejections, the signed 64-bit reading of the revision and the guard against older revisions are modelled.
- CatalogManager.Manager.Apply: models calls that do not overlap with other edits; an edit committed by another thread in the middle makes the refresh throw.
- SourceHolder.Holder.SetFor: a set is built from the flat table of its view; the compiled form and its fallbacks are not modelled.
- DomainStore.Edit.Commit: a refused commit leaves the draft moved from; the model empties it and promises nothing more about it. Exceptions thrown while a value emits its domains are left out.
- The scanner's `search` and `emplace_domain_parser`: one lookup at one node, and another spelling of adding.
- ResourceChain.ChainedHandle.Deliver: handles, there and in ResourceChain.ChainedHandle.UpdatePrefix and ResourceChain.ChainedHandle.Final, are deterministic and stop at their first refused write; error values are one kind of failure. `on_response` metadata passes are left out.
- ResourceAdapter.Open: adapters are functions of the descriptor; awaiting is not modelled.
- VideoExtractor.ExtractRouted: extracting and routing are functions of the URL and the link during one search; `route_url` parsing and cancellation are left out.
- Headers.HeaderList.Set: the header list's `at`, `contains` and comparison are left out.
- Timestamps.ParseIso8601: ticks are unbounded integers; 64-bit overflow for far years is left out.
- CookieCodec.ParseNetscapeLine: converting seconds to ticks is unbounded too.
- Clients, coroutines, retries, file caching, atomics and memory reclamation: inputs and atomic steps here.
- Data models, the booru engine, capability flags, search validation, paging, ratings and numbers: declarations, or claims that restate one branch.
