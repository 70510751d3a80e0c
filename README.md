# Proposal builder: DOCX export and section editor, in Dafny

This project models two parts of a business-proposal authoring tool:

- **The DOCX export** (`app/api/export/docx/route.ts`). It turns a stored proposal into the ordered list of paragraphs of a Word document:
  - the client logo, loaded from a local file or over HTTP(S) depending on the reference's prefix;
  - the title;
  - the client information, with "N/A" defaults;
  - the sections, sorted stably by `order`, each a heading followed by its HTML content converted block by block;
  - the pricing lines and their total.
- **The section editor's list operations** (`components/SectionEditor.tsx`): adding, updating, deleting and moving sections, and expanding or collapsing them.

Modules, one per file:

- `Wrappers`: Option.
- `Text`: JavaScript `trim`, tag stripping, decimal and thousands-grouped numbers.
- `Segmenter`: the regular-expression split, classification and list items of `htmlToParagraphs`, as hand-written scanners.
- `Docx`: paragraphs and runs in place of the `docx` library objects.
- `Mapper`: the style table and the imperative `htmlToParagraphs`.
- `ImageLoader`: `loadImage`.
- `Proposal`: the stored data.
- `SectionOrder`: the in-place stable sort.
- `Assembler`: the document as a function, and the route's imperative assembly proved equal to it.
- `SectionEditor`: a `Section` class whose `order` the move operation writes in place.

How JavaScript behaviour is modelled:

- **Split and `.*?`.** The split is modelled as JavaScript runs it. The alternatives are tried in pattern order (h1–h3, p, ul, ol, blockquote) at each position. `[^>]*>` runs to the first `>`, across lines. The lazy `.*?` stops at the first closing tag and cannot cross `\n`, `\r`, U+2028 or U+2029.
- **Classification.** A piece is classified by the first tag in the priority order h1, h2, h3, ul, ol, blockquote, p whose opening `<name` followed by a later `>` occurs anywhere in it. Matching is ASCII case-insensitive.
- **Truthiness.** An empty `Buffer` is truthy, so an empty image still yields a logo paragraph. `||` treats `""` like a missing value.

## Model

| member | source | states |
|---|---|---|
| Text.LowerAscii | app/api/export/docx/route.ts:84 | the `i` flag's case folding: ASCII capitals map to their lower-case letter, every other character is unchanged |
| Text.IsJsSpace | app/api/export/docx/route.ts:81 | the characters `trim` removes, JavaScript's WhiteSpace and LineTerminator code points; what trimming does with them is stated by `Text.TrimStartSpec`, `Text.TrimEndSpec` and `Text.TrimEmptyIffBlank` |
| Text.TrimStart | app/api/export/docx/route.ts:81 | the leading half of `trim`: never lengthens; what it drops and keeps is stated by `Text.TrimStartSpec` |
| Text.TrimEnd | app/api/export/docx/route.ts:81 | the trailing half of `trim`: never lengthens; what it drops and keeps is stated by `Text.TrimEndSpec` |
| Text.Trim | app/api/export/docx/route.ts:81 | `String.prototype.trim`, both halves in turn; characterised by `Text.TrimIsInfix` and `Text.TrimEmptyIffBlank` |
| Text.TrimStartSpec | app/api/export/docx/route.ts:81 | dropping leading space leaves a suffix of the input, everything dropped is JavaScript white space, and the rest does not start with white space |
| Text.TrimEndSpec | app/api/export/docx/route.ts:81 | dropping trailing space leaves a prefix of the input, everything dropped is white space, and the rest does not end with white space |
| Text.TrimIsInfix | app/api/export/docx/route.ts:85 | `trim` returns a trimmed infix of its input with only white space around it |
| Text.TrimFixesTrimmed | app/api/export/docx/route.ts:85 | trimming a trimmed string changes nothing |
| Text.TrimEmptyIffBlank | app/api/export/docx/route.ts:81 | a piece is skipped exactly when it consists of white space only |
| Text.FindGt | app/api/export/docx/route.ts:78 | `[^>]*>`: the first `>` at or after a position, or none when there is none |
| Text.TagEnd | app/api/export/docx/route.ts:85 | one match of `<[^>]+>` at a position: a `<`, at least one character other than `>`, then the first `>`; it is absent exactly when `<` is followed by `>` or by no `>` at all |
| Text.StripTags | app/api/export/docx/route.ts:85 | `replace(/<[^>]+>/g, '')` as a left-to-right scan; what it keeps and drops is stated by `Text.StripTagsKeepsText` and `Text.StripTagsDropsTag` |
| Text.StripTagsKeepsChars | app/api/export/docx/route.ts:85 | stripping never lengthens the text and every character of the output occurs in the input |
| Text.StripTagsKeepsText | app/api/export/docx/route.ts:85 | text without `<` is kept as it is, in order, in front of what the rest strips to |
| Text.StripTagsDropsTag | app/api/export/docx/route.ts:85 | a whole `<…>` run with content is dropped, and stripping resumes right after it |
| Text.StripTagsLeavesNoTag | app/api/export/docx/route.ts:85 | after `replace(/<[^>]+>/g, '')` no `<…>` run with content is left |
| Text.StripTagsFixesNoTag | app/api/export/docx/route.ts:85 | text without tags is left as it is |
| Text.StripTagsIdempotent | app/api/export/docx/route.ts:85 | stripping twice is stripping once |
| Text.NoTagInfix | app/api/export/docx/route.ts:85 | any infix of tag-free text is tag-free |
| Text.DigitChar | app/api/export/docx/route.ts:131 | a digit's character is a decimal digit with that value |
| Text.NatToString | app/api/export/docx/route.ts:131 | the decimal rendering is non-empty, all digits, with no leading zero |
| Text.NatToStringRoundTrip | app/api/export/docx/route.ts:131 | reading back the decimal rendering gives the number |
| Text.Pad3 | app/api/export/docx/route.ts:276 | a group below 1000 renders as exactly three digits |
| Text.NatToStringSplit3 | app/api/export/docx/route.ts:276 | the decimal rendering of a number of four or more digits splits into its thousands and its last three digits |
| Text.GroupThousandsKeepsDigits | app/api/export/docx/route.ts:276 | the grouped amount, without its commas, is the plain decimal rendering |
| Text.RemoveCommasAppend | app/api/export/docx/route.ts:276 | comma removal distributes over concatenation |
| Text.GroupThousands | app/api/export/docx/route.ts:276 | `toLocaleString()` of a non-negative integer in en-US; its digits are stated by `Text.GroupThousandsKeepsDigits` and its commas by `Text.GroupThousandsShape` |
| Text.GroupThousandsShape | app/api/export/docx/route.ts:276 | the grouped amount is digits and commas only, with a comma exactly every fourth character from the end: three-digit groups after a first group of one to three digits |
| Text.FormatAmount | app/api/export/docx/route.ts:276 | an integer amount grouped as above, with a leading minus sign when negative |
| Segmenter.LazyClose | app/api/export/docx/route.ts:78 | `.*?</tag>` ends within the text and after its start |
| Segmenter.LazyCloseSpec | app/api/export/docx/route.ts:78 | the closing tag occurs where the lazy match ends, and no line terminator lies before it |
| Segmenter.LazyCloseIsFirst | app/api/export/docx/route.ts:78 | the lazy match takes the first closing tag: none occurs earlier |
| Segmenter.LazyCloseFinds | app/api/export/docx/route.ts:78 | whenever a closing tag follows with no line terminator before it, the lazy match succeeds, ending at or before that closing tag |
| Segmenter.ElementEnd | app/api/export/docx/route.ts:78 | an element match ends after its opening tag and within the text |
| Segmenter.HeadingAlt | app/api/export/docx/route.ts:78 | the alternative `<h[1-3][^>]*>.*?<\/h[1-3]>`; what its matches are is stated by `Segmenter.FirstMatchIsElement` and `Segmenter.MatchIsElement` |
| Segmenter.ParagraphAlt | app/api/export/docx/route.ts:78 | the alternative `<p[^>]*>.*?<\/p>`; stated by `Segmenter.MatchIsElement` |
| Segmenter.UnorderedAlt | app/api/export/docx/route.ts:78 | the alternative `<ul[^>]*>.*?<\/ul>`; stated by `Segmenter.MatchIsElement` |
| Segmenter.OrderedAlt | app/api/export/docx/route.ts:78 | the alternative `<ol[^>]*>.*?<\/ol>`; stated by `Segmenter.MatchIsElement` |
| Segmenter.QuoteAlt | app/api/export/docx/route.ts:78 | the alternative `<blockquote[^>]*>.*?<\/blockquote>`; stated by `Segmenter.MatchIsElement` |
| Segmenter.FirstMatch | app/api/export/docx/route.ts:78 | a match of the alternation at a position ends after it and within the text |
| Segmenter.FirstMatchSpec | app/api/export/docx/route.ts:78 | a match of the alternation is the match of one of its alternatives |
| Segmenter.MatchAt | app/api/export/docx/route.ts:78 | the split pattern at a position matches a non-empty stretch within the text |
| Segmenter.MatchAtAdvances | app/api/export/docx/route.ts:78 | every match of the split pattern is non-empty and in bounds, so the split terminates |
| Segmenter.SplitFromLossless | app/api/export/docx/route.ts:78 | the pieces from any point on, joined, are the rest of the input |
| Segmenter.SplitLossless | app/api/export/docx/route.ts:78 | the pieces of `split`, joined, are the input |
| Segmenter.SplitFromAlternates | app/api/export/docx/route.ts:78 | from any point on, pieces alternate between text and captures, starting and ending with text |
| Segmenter.SplitAlternates | app/api/export/docx/route.ts:78 | `split` with a capture group yields an odd number of pieces, and the odd positions are exactly the captures |
| Segmenter.SplitFrom | app/api/export/docx/route.ts:78 | `String.prototype.split` with one capturing group, from a position on; stated by `Segmenter.SplitFromLossless`, `Segmenter.SplitFromAlternates` and `Segmenter.SplitFromCapturesOnly` |
| Segmenter.Split | app/api/export/docx/route.ts:78 | the split of the section HTML; stated by `Segmenter.SplitLossless`, `Segmenter.SplitAlternates` and `Segmenter.SplitCapturesElements` |
| Segmenter.SplitFromCapturesOnly | app/api/export/docx/route.ts:78 | every captured piece is a match of the pattern, so it has every property all matches share |
| Segmenter.PatAtWindow | app/api/export/docx/route.ts:78 | a pattern matches inside a window exactly where it matches in the whole text |
| Segmenter.FindGtWindow | app/api/export/docx/route.ts:78 | finding `>` inside a window agrees with finding it in the whole text |
| Segmenter.LazyCloseWindow | app/api/export/docx/route.ts:78 | the lazy match inside a window agrees with the lazy match in the whole text |
| Segmenter.TagEndAtWindow | app/api/export/docx/route.ts:78 | a match of one alternative is a complete element of that tag |
| Segmenter.ElementContentOnOneLine | app/api/export/docx/route.ts:78 | a captured element's content after its opening `>` holds no line terminator |
| Segmenter.FirstMatchIsElement | app/api/export/docx/route.ts:78 | a match of the alternation is a complete element of one of the alternatives tried |
| Segmenter.MatchIsElement | app/api/export/docx/route.ts:78 | every match of the split pattern is a complete element of one of its five alternatives: h1–3, p, ul, ol or blockquote |
| Segmenter.SplitCapturesElements | app/api/export/docx/route.ts:78 | every captured piece of `split` is one complete h1–3, p, ul, ol or blockquote element, whose content from its opening `>` to its closing tag holds no line terminator |
| Segmenter.Opens | app/api/export/docx/route.ts:84 | `piece.match(/<name[^>]*>/i)` succeeds: `<name` somewhere, ASCII case-insensitively, with a `>` after it |
| Segmenter.ClassifyBy | app/api/export/docx/route.ts:84-163 | the if/else-if chain over a table of tags; stated by `Segmenter.ClassifyByInTable` and `Segmenter.ClassifyByIsFirst` |
| Segmenter.Classify | app/api/export/docx/route.ts:84-163 | the chain in the route's order h1, h2, h3, ul, ol, blockquote, p; stated by `Segmenter.ClassifyIsFirstOpened` |
| Segmenter.ClassifyByInTable | app/api/export/docx/route.ts:84-163 | a piece that opens none of the listed tags is unrecognised |
| Segmenter.ClassifyByIsFirst | app/api/export/docx/route.ts:84-163 | with distinct kinds, a piece gets a kind exactly when it opens that kind's tag and none listed before it |
| Segmenter.ClassifyIsFirstOpened | app/api/export/docx/route.ts:84-163 | in both directions: a piece is classified as the first of h1, h2, h3, ul, ol, blockquote, p that it opens |
| Segmenter.Clean | app/api/export/docx/route.ts:85 | `replace(/<[^>]+>/g, '').trim()`; stated by `Segmenter.CleanIsClean` |
| Segmenter.CleanIsClean | app/api/export/docx/route.ts:85 | a block's text is trimmed and tag-free |
| Segmenter.ItemAlt | app/api/export/docx/route.ts:114 | the item pattern `<li[^>]*>(.*?)<\/li>`; what its matches are is stated by `Segmenter.ListItemsAreElements` |
| Segmenter.MatchAllFrom | app/api/export/docx/route.ts:114 | `match` with the `g` flag from a position on: each match in turn, scanning on after it |
| Segmenter.ListItems | app/api/export/docx/route.ts:114 | the list items, `|| []` included; stated by `Segmenter.ListItemsAreElements` |
| Segmenter.MatchAllFromAreElements | app/api/export/docx/route.ts:114 | every global match of `<li…>…</li>` from any point on is a complete list-item element |
| Segmenter.ListItemsAreElements | app/api/export/docx/route.ts:114 | every list item found is a complete `<li…>…</li>` element |
| Segmenter.LeafBlock | app/api/export/docx/route.ts:84-163 | a heading, quote or paragraph block has the piece's kind, the given text and a heading level of 1 to 3 |
| Segmenter.BlankPieceBlocks | app/api/export/docx/route.ts:81 | a blank piece produces nothing |
| Segmenter.UnrecognizedPieceBlocks | app/api/export/docx/route.ts:80-163 | a piece that opens no block tag produces nothing |
| Segmenter.ListPieceBlocksAre | app/api/export/docx/route.ts:113-136 | a list piece produces the blocks of its items' cleaned texts |
| Segmenter.LeafPieceBlocksAre | app/api/export/docx/route.ts:84-163 | a heading, quote or paragraph piece produces one block of its cleaned text, or nothing when that text is empty |
| Segmenter.ItemBlock | app/api/export/docx/route.ts:115-135 | one item: nothing when its cleaned text is empty, else a bullet, or a number of index + 1 in an ordered list |
| Segmenter.ItemBlocks | app/api/export/docx/route.ts:115-135 | the `forEach` over the items; stated by `Segmenter.NumberedItems` and `Segmenter.BulletsAreUnnumbered` |
| Segmenter.NumberedItems | app/api/export/docx/route.ts:125-136 | ordered items are numbered index + 1 over all matched items, so skipped empty items leave gaps; numbers strictly increase; exactly the non-empty texts appear, in order |
| Segmenter.NumberedSnocFrom | app/api/export/docx/route.ts:127-135 | appending the next item keeps every block's number equal to its item's position + 1 |
| Segmenter.NumberedSnocIncreasing | app/api/export/docx/route.ts:127-135 | appending the next item keeps the numbers strictly increasing |
| Segmenter.NumberedSnocKeeps | app/api/export/docx/route.ts:127-135 | appending the next item keeps exactly the non-empty texts |
| Segmenter.BulletsAreUnnumbered | app/api/export/docx/route.ts:113-136 | unordered items are the ordered items with their numbers dropped |
| Segmenter.ItemBlocksWellFormed | app/api/export/docx/route.ts:115-135 | every list-item block has non-empty, trimmed, tag-free text and a number of at least 1 |
| Segmenter.ListPieceBlocks | app/api/export/docx/route.ts:113-136 | a list piece's blocks are well formed and of the piece's kind |
| Segmenter.LeafPieceBlocks | app/api/export/docx/route.ts:84-163 | a heading, quote or paragraph piece yields at most one block, well formed, of its kind, with the cleaned text |
| Segmenter.PieceBlocks | app/api/export/docx/route.ts:81-163 | the body of the `forEach` over pieces; stated by `Segmenter.BlankPieceBlocks`, `Segmenter.UnrecognizedPieceBlocks`, `Segmenter.ListPieceBlocksAre`, `Segmenter.LeafPieceBlocksAre` and `Segmenter.PieceBlocksFollowClassify` |
| Segmenter.BlocksOf | app/api/export/docx/route.ts:80-164 | the blocks of the pieces in order; stated by `Segmenter.BlocksOfWellFormed` |
| Segmenter.Blocks | app/api/export/docx/route.ts:74-167 | the blocks of an HTML string; stated by `Segmenter.BlocksWellFormed` and `Segmenter.NoMarkupNoBlocks` |
| Segmenter.PieceBlocksFollowClassify | app/api/export/docx/route.ts:80-163 | every block of a piece is well formed and of the piece's class; unrecognised pieces yield nothing |
| Segmenter.BlocksOfWellFormed | app/api/export/docx/route.ts:80-164 | the blocks of any list of pieces are all well formed |
| Segmenter.BlocksWellFormed | app/api/export/docx/route.ts:74-167 | no emitted block has empty text; all texts are trimmed and tag-free; heading levels are 1–3 |
| Segmenter.SplitFromNoMatch | app/api/export/docx/route.ts:78 | where the pattern matches nowhere, the rest is one uncaptured piece |
| Segmenter.FirstMatchNeedsLt | app/api/export/docx/route.ts:78 | no alternative matches at a position not holding `<` |
| Segmenter.NoLtOpensNothing | app/api/export/docx/route.ts:84 | text without `<` opens no tag |
| Segmenter.ClassifyByNeedsLt | app/api/export/docx/route.ts:84-163 | text without `<` is unrecognised |
| Segmenter.NoMarkupNoSplit | app/api/export/docx/route.ts:78 | text without `<` is split into itself alone |
| Segmenter.NoMarkupNoBlocks | app/api/export/docx/route.ts:74-167 | text without any markup, the empty content included, produces no blocks |
| Mapper.MapBlock | app/api/export/docx/route.ts:84-162 | every block becomes one plain, unbolded run, start-aligned; a heading style exactly for headings, italics exactly for quotes, left indent 400 exactly for list items; spacing before/after 400/200, 300/150 and 200/100 for h1, h2 and h3, after 100 for list items, after 200 with indent 720 on both sides for a quote, after 150 for a paragraph, and no indent on headings and paragraphs |
| Mapper.DigitRun | app/api/export/docx/route.ts:131 | the leading digits of a text, and only those |
| Mapper.NumberedRoundTrip | app/api/export/docx/route.ts:131 | the `n. text` rendering of an ordered item reads back as that item |
| Mapper.DigitRunOfDigits | app/api/export/docx/route.ts:131 | the leading digits of digits followed by a non-digit are exactly those digits |
| Mapper.BulletRoundTrip | app/api/export/docx/route.ts:118-122 | a bullet paragraph reads back as its item |
| Mapper.NumberedItemRoundTrip | app/api/export/docx/route.ts:130-134 | a numbered paragraph reads back as its item, never as a bullet |
| Mapper.QuoteRoundTrip | app/api/export/docx/route.ts:141-151 | a quote paragraph reads back as its quote |
| Mapper.MapBlockRoundTrip | app/api/export/docx/route.ts:84-162 | the style table loses nothing: each paragraph reads back as the block it came from |
| Mapper.MapBlockInjective | app/api/export/docx/route.ts:84-162 | different blocks give different paragraphs |
| Mapper.MapBlocksAppend | app/api/export/docx/route.ts:80-164 | mapping distributes over concatenation |
| Mapper.ItemParagraphs | app/api/export/docx/route.ts:114-136 | the `forEach` over list items pushes exactly the paragraphs of the item blocks |
| Mapper.ItemBlocksSnoc | app/api/export/docx/route.ts:115-135 | one more item appends exactly that item's block, if any |
| Mapper.LeafParagraphs | app/api/export/docx/route.ts:84-163 | a heading, quote or paragraph piece pushes exactly the paragraph of its block |
| Mapper.PieceParagraphs | app/api/export/docx/route.ts:80-163 | each piece pushes exactly the paragraphs of its blocks |
| Mapper.HtmlToParagraphs | app/api/export/docx/route.ts:74-167 | `htmlToParagraphs` returns exactly the mapped blocks of the HTML |
| ImageLoader.LoadImage | app/api/export/docx/route.ts:48-71 | a reference with neither prefix loads nothing and performs no I/O |
| ImageLoader.Resolve | app/api/export/docx/route.ts:50-66 | where `loadImage` reads from: a local file, a GET over http or https, or nowhere; stated by `ImageLoader.ResolveSpec` |
| ImageLoader.ResolveSpec | app/api/export/docx/route.ts:50-66 | in both directions: local read of `public` + reference exactly for `/uploads/`; fetch exactly for other `http…` references, over https exactly for `https…`; nothing for the rest |
| SectionOrder.Insert | app/api/export/docx/route.ts:244 | inserting adds exactly one element |
| SectionOrder.SortByOrder | app/api/export/docx/route.ts:244 | the sort keeps the number of sections |
| SectionOrder.InsertPermutes | app/api/export/docx/route.ts:244 | inserting adds exactly the element |
| SectionOrder.InsertSorted | app/api/export/docx/route.ts:244 | inserting into a sorted list keeps it sorted |
| SectionOrder.InsertWithOrder | app/api/export/docx/route.ts:244 | the inserted element goes after the elements of equal order |
| SectionOrder.SortByOrderSorted | app/api/export/docx/route.ts:244 | the sort's result is ascending by order and a permutation of the input |
| SectionOrder.SortByOrderStable | app/api/export/docx/route.ts:244 | sections of equal order keep their relative order |
| SectionOrder.WithOrderHas | app/api/export/docx/route.ts:244 | every section is among those of its own order |
| SectionOrder.WithOrderIn | app/api/export/docx/route.ts:244 | the sections of an order are sections of the list with that order |
| SectionOrder.SortedUnique | app/api/export/docx/route.ts:244 | two sorted lists with the same sections of each order, in the same relative order, are equal |
| SectionOrder.StableSortIsSortByOrder | app/api/export/docx/route.ts:244 | any stable ascending arrangement of the sections is this sort's result, so the model pins down `Array.prototype.sort`'s output |
| SectionOrder.SortedIsFixed | app/api/export/docx/route.ts:244 | sections already in order are left as they are |
| SectionOrder.AppendLargestSortsLast | app/api/export/docx/route.ts:244 | a section whose order is at least every other's is sorted last |
| SectionOrder.SortSections | app/api/export/docx/route.ts:243-244 | the in-place sort leaves the array holding the stable sort of its old contents |
| SectionOrder.InsertLeft | app/api/export/docx/route.ts:244 | one insertion step in place: the prefix becomes the insertion of the element, and the rest is unchanged |
| Proposal.Truthy | app/api/export/docx/route.ts:173 | JavaScript truthiness of an optional string: present and not empty; what it decides is stated by `Assembler.NoLogoForOtherReferences` and `Assembler.ClientLineSpec` |
| Proposal.OrElse | app/api/export/docx/route.ts:221-233 | the value when truthy, else the fallback, as JavaScript's logical or gives it; stated by `Assembler.ClientLineSpec` and, for the frequency at line 276, `Assembler.PricingLineSpec` |
| Assembler.LogoParagraph | app/api/export/docx/route.ts:177-191 | the logo image at 150 by 75, centred, 400 after; stated by `Assembler.DocumentHead`, `Assembler.LogoFromUploads` and `Assembler.LogoFromRemote` |
| Assembler.LogoParagraphs | app/api/export/docx/route.ts:173-196 | at most one logo paragraph |
| Assembler.NoLogoForOtherReferences | app/api/export/docx/route.ts:173-196 | without a reference, or with one that has neither prefix, there is no logo, whatever the I/O would return |
| Assembler.LogoFromUploads | app/api/export/docx/route.ts:50-53 | an `/uploads/` logo is present exactly when reading `public` + reference succeeds, even with zero bytes, and shows those bytes; the network is not consulted |
| Assembler.LogoFromRemote | app/api/export/docx/route.ts:54-64 | an `http…` logo is present exactly when the GET succeeds, over https exactly for `https…`, and shows the body; no file is read |
| Assembler.TitleParagraph | app/api/export/docx/route.ts:199-206 | the title as a centred level-1 heading with 400 after; stated by `Assembler.DocumentHead` |
| Assembler.ClientHeading | app/api/export/docx/route.ts:209-215 | "Client Information" as a level-2 heading with 200 before and after; stated by `Assembler.DocumentHead` |
| Assembler.DocumentHead | app/api/export/docx/route.ts:172-239 | the document opens with the logo (if any: a 150 by 75 image, centred, 400 after), then the title as a centred level-1 heading with 400 after, the "Client Information" level-2 heading with 200 before and after, and the client paragraph of four lines with 400 after |
| Assembler.ClientLine | app/api/export/docx/route.ts:220-235 | one client line, "N/A" standing in; stated by `Assembler.ClientLineSpec` |
| Assembler.ClientParagraph | app/api/export/docx/route.ts:217-239 | the four client lines, Client, Company, Email, Address, in that order |
| Assembler.ClientLineSpec | app/api/export/docx/route.ts:217-239 | each client line starts with its field name, is never empty after it, reads "N/A" exactly when the value is missing, empty or "N/A", and otherwise shows the value |
| Assembler.SectionParagraphs | app/api/export/docx/route.ts:246-257 | one section: its title as a level-2 heading, then its converted html, `''` when missing |
| Assembler.SectionsParagraphs | app/api/export/docx/route.ts:245-258 | the sections one after the other; stated by `Assembler.SectionsParagraphsSnoc` and `Assembler.SectionsParagraphsAppend` |
| Assembler.SectionsParagraphsSnoc | app/api/export/docx/route.ts:245-258 | one more section appends its title heading and content |
| Assembler.SectionsParagraphsAppend | app/api/export/docx/route.ts:245-258 | the sections' paragraphs are the concatenation of each part's |
| Assembler.SectionWithoutMarkup | app/api/export/docx/route.ts:256 | a section without html, or with html containing no markup, contributes only its title heading |
| Assembler.Total | app/api/export/docx/route.ts:285 | `reduce` from the left starting at 0; stated by `Assembler.TotalIsSum` and `Assembler.TotalPermutation` |
| Assembler.TotalIsSum | app/api/export/docx/route.ts:285 | the `reduce` from the left equals the sum from the right |
| Assembler.SumSnoc | app/api/export/docx/route.ts:285 | one more item adds its cost to the sum |
| Assembler.SumRemove | app/api/export/docx/route.ts:285 | removing one item takes its cost off the sum |
| Assembler.RemoveFromBoth | app/api/export/docx/route.ts:285 | removing one matching item from two permutations leaves permutations |
| Assembler.TotalPermutation | app/api/export/docx/route.ts:285 | the total does not depend on the order of the items |
| Assembler.TotalCost | app/api/export/docx/route.ts:285 | the accumulation from 0, item by item, computes the `reduce` total |
| Assembler.PricingLine | app/api/export/docx/route.ts:271-281 | one item's line; stated by `Assembler.PricingLineSpec` |
| Assembler.PricingHeading | app/api/export/docx/route.ts:263-269 | "Pricing Breakdown" as a level-2 heading with 400 before and 200 after; stated by `Assembler.PricingSpec` |
| Assembler.TotalParagraph | app/api/export/docx/route.ts:285-297 | "Total: $" and the grouped total, bold, on a new line, 200 before; stated by `Assembler.PricingSpec` |
| Assembler.PricingParagraphs | app/api/export/docx/route.ts:262-298 | the pricing part; stated by `Assembler.PricingSpec` |
| Assembler.PricingSpec | app/api/export/docx/route.ts:262-298 | the pricing part is there exactly when there are items: the "Pricing Breakdown" level-2 heading with 400 before and 200 after, item k's line at position k + 1, then "Total: $" and the grouped sum of all costs, bold, on a new line, with 200 before |
| Assembler.PricingLineSpec | app/api/export/docx/route.ts:276 | a line shows the description, then `: $`, then the grouped cost, then the frequency or "one-time" |
| Assembler.Document | app/api/export/docx/route.ts:169-298 | the document's paragraphs in order; stated by `Assembler.DocumentHead`, `Assembler.PricingSpec` and, for the route's loops, `Assembler.BuildDocument` |
| Assembler.AllSectionParagraphs | app/api/export/docx/route.ts:245-258 | the loop over the sorted sections pushes exactly each section's title heading and content, in order |
| Assembler.BuildPricing | app/api/export/docx/route.ts:262-298 | the pricing loops push exactly the pricing part, with the total accumulated as `reduce` does |
| Assembler.BuildDocument | app/api/export/docx/route.ts:169-298 | the array of sections ends up sorted in place, and the children are exactly the document: logo, title, client block, sorted sections, pricing |
| SectionEditor.Values | components/SectionEditor.tsx:11-17 | the export's view of each section, position by position |
| SectionEditor.ExportShowsEditorOrder | app/api/export/docx/route.ts:243-245 | a list sorted by order is exported in the order the editor shows it |
| SectionEditor.AsWrittenNewOrder | components/SectionEditor.tsx:35 | the order `addSection` gives: the list's length |
| SectionEditor.NextOrder | components/SectionEditor.tsx:35 | the corrected new order is non-negative and above every order in the list |
| SectionEditor.NextOrderOfNumbered | components/SectionEditor.tsx:35 | on a list numbered 0..n-1 the corrected order equals the length, the order as written |
| SectionEditor.NextOrderSortsLast | components/SectionEditor.tsx:35 | a section added with the corrected order is exported last, after the others in their order |
| SectionEditor.AsWrittenAddMisorders | components/SectionEditor.tsx:35 | with the length as the order, a delete and then an add put the new section first in the export but last in the editor |
| SectionEditor.DeleteFirstTwo | components/SectionEditor.tsx:51 | deleting the first two of three sections with distinct ids leaves the third, with its order unchanged |
| SectionEditor.LowerOrderSortsFirst | app/api/export/docx/route.ts:244 | a later section of lower order is exported first |
| SectionEditor.AddSection | components/SectionEditor.tsx:30-40 | appends one fresh section ("section-" + clock, "New Section", empty content, order the old length, type text) and keeps the existing objects; expands its id; on a list numbered 0..n-1 the result is numbered and in export order |
| SectionEditor.AddSectionLast | components/SectionEditor.tsx:30-40 | the corrected `addSection`: the same, with order `NextOrder`, and it keeps every list that is in export order in export order |
| SectionEditor.Merge | components/SectionEditor.tsx:45 | `{ ...section, ...updates }`; stated by `SectionEditor.MergeLaws` and `SectionEditor.MergeChangesOnlyNamed` |
| SectionEditor.MergeLaws | components/SectionEditor.tsx:45 | `{ ...section, ...updates }`: the empty update is the identity, an update applied twice is applied once, two updates compose |
| SectionEditor.MergeChangesOnlyNamed | components/SectionEditor.tsx:45 | only the attributes an update names can change |
| SectionEditor.UpdateSection | components/SectionEditor.tsx:42-48 | same length; sections with the id become fresh merged objects; every other section is the same object; an update without `order` keeps the list in export order |
| SectionEditor.DeleteSection | components/SectionEditor.tsx:51 | `filter` on the id; stated by `SectionEditor.DeleteSectionSpec` and `SectionEditor.DeleteSectionAppend` |
| SectionEditor.DeleteSectionSpec | components/SectionEditor.tsx:51 | every section with the id is removed, and every other one is kept |
| SectionEditor.DeleteSectionAppend | components/SectionEditor.tsx:51 | deletion works piece by piece, so the survivors keep their relative order |
| SectionEditor.DeleteSectionValues | components/SectionEditor.tsx:51 | deletion does not renumber: the export sees the same filter on unchanged orders |
| SectionEditor.ValuesAppend | components/SectionEditor.tsx:51 | the export's view distributes over concatenation |
| SectionEditor.DeleteStoredIn | components/SectionEditor.tsx:51 | every survivor was in the list |
| SectionEditor.DeleteStoredKeepsSorted | components/SectionEditor.tsx:51 | deleting from a list sorted by order leaves it sorted |
| SectionEditor.DeleteKeepsExportOrder | components/SectionEditor.tsx:50-53 | deletion keeps the list in export order |
| SectionEditor.Without | components/SectionEditor.tsx:52 | `filter(sId => sId !== id)`; stated by `SectionEditor.WithoutSpec` |
| SectionEditor.WithoutSpec | components/SectionEditor.tsx:52 | removing an id from the expanded ids removes all its occurrences and keeps every other id |
| SectionEditor.WithoutAbsent | components/SectionEditor.tsx:81 | removing an absent id changes nothing |
| SectionEditor.WithoutTwice | components/SectionEditor.tsx:81 | removing twice is removing once |
| SectionEditor.ToggleSection | components/SectionEditor.tsx:79-83 | `toggleSection`'s update of the expanded ids; stated by `SectionEditor.ToggleSectionSpec` |
| SectionEditor.ToggleSectionSpec | components/SectionEditor.tsx:79-83 | toggling flips whether the id is expanded, leaves the other ids in order, and toggling a collapsed id twice restores the list |
| SectionEditor.FindIndex | components/SectionEditor.tsx:56 | `findIndex`: the first position with the id, or -1 exactly when there is none |
| SectionEditor.Swap | components/SectionEditor.tsx:66-69 | the two slots are exchanged and every other slot is unchanged |
| SectionEditor.SwapPermutes | components/SectionEditor.tsx:66-69 | a swap is a permutation |
| SectionEditor.Moved | components/SectionEditor.tsx:55-69 | the list `moveSection` hands on, or None at the boundary; stated by `SectionEditor.MovedPermutes` and `SectionEditor.MoveUpThenDown` |
| SectionEditor.MovedPermutes | components/SectionEditor.tsx:64-69 | a move is a permutation of the list |
| SectionEditor.MoveUpThenDown | components/SectionEditor.tsx:55-69 | moving up puts the section one position earlier, and moving it down again restores the list |
| SectionEditor.LastIndexOf | components/SectionEditor.tsx:72-74 | the last position holding an object, or -1 when it is absent |
| SectionEditor.LastIndexOfDistinct | components/SectionEditor.tsx:72-74 | among distinct objects each is last at its own position |
| SectionEditor.MoveSection | components/SectionEditor.tsx:55-77 | does nothing at the boundary; otherwise returns the swapped list and writes each object's last position into its `order`, changing nothing else |
| SectionEditor.Renumber | components/SectionEditor.tsx:72-74 | the loop leaves every listed object's `order` equal to its last position |
| SectionEditor.MovedIsNumbered | components/SectionEditor.tsx:72-74 | after a move of distinct sections the orders are exactly 0..n-1, and the list is in export order |

## Left out

- The `docx` library: `Document`, `Packer.toBuffer` and the response with its headers (app/api/export/docx/route.ts:300-315). The model stops at the list of paragraphs. In `Docx.Paragraph`, spacing or indentation 0 stands for "not set".
- Request plumbing: authentication, JSON body parsing, the Prisma lookup, the `hasAccess` test, the 401/400/404/403/500 responses and the outer `try`. None of it is a content transformation.
- I/O in `loadImage`. `readFileSync` and the HTTP(S) GET with its streamed chunks are the parameters `readFile` and `get`, returning bytes or None. A thrown read error and a rejected GET both appear as None, as the surrounding `try` turns them into "no logo". A request-level network error that never settles the promise is not modelled.
- `path.join` normalisation. The local path is the string `"public" + reference`, relative to the working directory, without resolving `..` or doubled slashes.
- `toLocaleString()` is modelled for whole numbers in en-US grouping only (`Text.FormatAmount`). Costs are whole numbers of currency units. Fractional costs and other locales are not modelled.
- Text as code points. JavaScript strings are UTF-16 and Dafny's `char` is a code point. The patterns here only use ASCII and line terminators, so this only matters for characters outside the Basic Multilingual Plane, which the model treats as one character.
- The bullet prefix is the constant the source spells, `â€¢ ` (U+2022's UTF-8 bytes read as Windows-1252), kept as an opaque string.
- The section content's structured `json` twin is never read by the export and is not modelled. A section's content is its `html` string.
- `proposal.content.sections` that is not an array is treated like a missing list: `Assembler.Document` takes `None`. Non-numeric `order` values, for which the comparator returns NaN, are not modelled: orders are integers.
- `section.title` and the pricing fields are assumed to be strings and numbers. `undefined` titles are not modelled.
- SectionEditor.AddSection: the clock reading `Date.now()` is the parameter `now`. It keeps export order only on lists numbered 0..n-1, because on other lists the source's order can sort the new section before others (see Findings); `SectionEditor.AddSectionLast` is the corrected operation.
- SectionEditor.UpdateSection: an update either names an attribute or leaves it. A key present with the value `undefined`, which the spread would copy, is not modelled.
- SectionEditor.MoveSection: requires the id to be in the list, because both callers pass the id of a section on screen (components/SectionEditor.tsx:134 and :145, inside `sections.map`). An absent id (`findIndex` at -1) is not modelled: moving down a non-empty list then puts `undefined` at position 0 and the `forEach` throws before `onChange`; moving up writes only the array properties "-1" and "-2", then renumbers every section to 0..n-1 in place and calls `onChange`.
- React state (`useState` and its initial expanded ids, batching), the JSX rendering and `onChange`. The operations return the new list (None when `moveSection` does not call `onChange`) and the new expanded ids.

Where the code and a plain reading of its intent differ, the model follows the code:

- Ordered-list numbers count every matched `<li>`, including empty ones that are skipped, so the numbers can have gaps (`Segmenter.NumberedItems`). They are not consecutive positions.
- Nested structures are not dropped. A piece is classified by the first tag in priority order that it opens anywhere. A blockquote that contains a list becomes list items, and list items of a nested list are matched by the outer list's item pattern.
- "A captured block never spans a newline" holds for the content after the opening tag's `>`. The attributes inside the opening tag may span lines (`Segmenter.ElementContentOnOneLine`).
- Section orders are not required to be unique. The sort is stable, so ties keep their stored order.

## Findings

| source | as written | input that shows it | evidently intended | confidence | as-written member | corrected member |
|---|---|---|---|---|---|---|
| components/SectionEditor.tsx:35 | `addSection` gives the new section `order: sections.length`; `deleteSection` (line 51) does not renumber, and the export sorts by `order` (app/api/export/docx/route.ts:244) | sections a, b, c with orders 0, 1, 2; delete a and b, leaving c with order 2; add a section, which gets order 1: the editor lists c then the new section, the exported document puts the new section before c | a new section comes last in the export as it does in the editor | medium, not executed | SectionEditor.AsWrittenAddMisorders | SectionEditor.NextOrderSortsLast |
