# wordembed, modelled in Dafny

This project models the sequential core of `wordembed`. That library trains word
embeddings in two ways:

- **GloVe**, which counts word co-occurrences into a sparse matrix.
- **word2vec**, which trains a skip-gram model with hierarchical softmax over a Huffman tree.

The model covers the data structures and the index logic. It does not cover the
floating-point training.

- **Sparse storage** (`Sparse`, `Layouts`): a `SparseVector` keeps strictly increasing
  `indices` beside its `values`. A `SparseMatrix` is a list of such rows. It counts its stored
  entries and can pick the idx-th one in row-major storage order.
- **Entry picker** (`EntryPicker`): the prefix-sum table over the row lengths, and the binary
  search that maps an offset to a stored (row, column). Together they form a bijection between
  offsets and stored positions.
- **Co-occurrence counter** (`Cooccurrence`): the window loop of `CooccurCounter.Add`.
  - It is proved against a closed-form sum, `Delta`.
  - `Delta` is symmetric, and it is zero outside the document's IDs.
  - Without distance weighting, `Delta` equals a brute-force count of position pairs.
- **Vocabulary** (`TokenSets`, `TokenCounting`):
  - a sorted `TokenSet` and its ID/token round trip;
  - token counting;
  - the "most common n" selection.
- **Tokenizer** (`Tokenizing`): whitespace fields, optional lower-casing, and the three
  punctuation modes. The Unicode character classes are parameters.
- **Huffman hierarchy** (`Hierarchies`):
  - The Huffman tree is built with the splay-tree priority queue modelled as a sorted sequence.
  - Internal nodes are numbered in preorder into signed paths.
  - The model proves: the keys are the input words; the paths are prefix-free and climb in
    absolute value; `NumNodes` is one less than the word count; and the result does not
    depend on map iteration order.
- **word2vec helpers** (`PathHelpers`, `Samples`, `SkipGrams`, `Embeds`):
  - decoding a path element to a node index;
  - the sorted set of visited nodes;
  - context samples and their trimming;
  - the word-to-row rank map;
  - one training step's input assembly;
  - the row arithmetic of `Embed`.

Library routines are modelled by verified functions with the contracts those routines document:

- `sort.Search`, `sort.SearchInts` and `sort.SearchStrings` are modelled in `Search`.
- `sort.Ints`, `sort.Strings` and `essentials.VoodooSort` are modelled by one insertion sort in `Sorting`.
- Byte-wise string order is modelled in `Lex`.

Go's randomised map iteration order is either a parameter constrained to be a permutation of
the keys, or an arbitrary choice (`:|`). Every result whose source is order-independent is
proved to be so. Random draws (`rand.Intn`) are parameters constrained to their range.
`float32`/`float64` values are `real`.

## Model

| member | source | states |
|---|---|---|
| Search.Search | glove/random.go:40-44 | Stands for `sort.Search`, which `rowForOffset` calls. The result is in [0, n]; the predicate holds at it and fails just before it; for a monotone predicate it is the first index where the predicate holds. |
| Search.SearchInts | glove/sparse.go:137-150 | Binary search over a non-decreasing list: every element before the result is below x, every element from it on is at least x. |
| Search.SearchStrings | token_set.go:35-41 | Binary search over strings: the element at the result is not below the token and the one before it is below; on a sorted list everything before the result is below. |
| Sparse.Lookup | glove/sparse.go:137-143 | The value stored beside `i` when `i` is a stored index, and 0 when it is not. |
| Sparse.SparseVector.constructor | glove/sparse.go:44-50 | A new row has the given length and no stored entries. |
| Sparse.SparseVector.Get | glove/sparse.go:137-143 | `Get(i)` is the stored value when `i` is in `indices`, and 0 otherwise. |
| Sparse.SparseVector.Set | glove/sparse.go:146-161 | Covers append, shift-insert and overwrite. Indices stay strictly increasing and parallel to the values; `Get(i)` becomes `v` and every other `Get(j)` is unchanged; the index set gains `i`; the count grows by one exactly when `i` was new, even when `v` is 0. |
| Sparse.InsertLookup | glove/sparse.go:152-159 | Shift-inserting a new index makes `Get` return `v` there and leaves every other position's value unchanged. |
| Sparse.OverwriteLookup | glove/sparse.go:147-150 | Overwriting an existing index changes only that index's value. |
| Sparse.SparseMatrix.constructor | glove/sparse.go:44-50 | `rows` fresh rows, each with length `cols` and no entries. |
| Sparse.SparseMatrix.Get | glove/sparse.go:53-56 | The addressed row's stored value, or 0. |
| Sparse.SparseMatrix.Set | glove/sparse.go:58-61 | Entry (row, col) of the contents reads `v` and every other entry reads as before; every row keeps its length; the stored positions gain (row, col); the entry count grows by one exactly when the position was new. |
| Sparse.SparseMatrix.GetIsEntry | glove/sparse.go:53-56 | `Get(r, c)` is entry (r, c) of the matrix contents, so `Set`'s contract is a statement about `Get`. |
| Sparse.SparseMatrix.NumEntries | glove/sparse.go:64-70 | The sum of the row lengths, which equals the number of distinct stored positions. |
| Sparse.SparseMatrix.RandomEntry | glove/sparse.go:75-89 | (0, 0) when nothing is stored; otherwise the idx-th position in row-major storage order, which is always stored, so the panic is unreachable. |
| Sparse.ValidLayout | glove/sparse.go:146-161 | Every row of a valid matrix keeps strictly increasing indices. |
| Layouts.PrefixSumsMonotone | glove/random.go:19-28 | The cumulative row counts never decrease. |
| Layouts.PrefixSearch | glove/random.go:40-44 | The row that binary search finds for an offset below the count is a real, non-empty row, and the offset falls inside that row's share of the count. |
| Layouts.FlattenAt | glove/random.go:31-38 | An offset inside row r's share picks column `rows[r][offset - start of r]` and agrees with the row-major storage order. |
| Layouts.CountIsStoredPositions | glove/sparse.go:64-70 | The sum of the row lengths equals the number of distinct stored positions. |
| Layouts.OffsetsBijection | glove/random.go:31-44 | The storage order lists each stored position exactly once and nothing else. |
| Layouts.CountUpdate | glove/sparse.go:58-61 | Replacing one row changes the count by the difference of the two lengths. |
| Layouts.StoredUpdate | glove/sparse.go:58-61 | A row that gains column c adds exactly position (r, c) to the stored set. |
| EntryPicker.RandomEntryPicker.constructor | glove/random.go:19-28 | One prefix sum per row; entry i counts the entries of rows 0..i; non-decreasing; the last one equals `numEntries`. |
| EntryPicker.RandomEntryPicker.RowForOffset | glove/random.go:40-44 | The first row whose prefix sum exceeds the offset; every earlier prefix sum is at most the offset. |
| EntryPicker.RandomEntryPicker.Pick | glove/random.go:31-38 | For an offset in [0, numEntries) the result is a stored position and equals `RandomEntry` with the same index. |
| EntryPicker.RandomEntryPicker.PickIsBijection | glove/random.go:31-44 | Different offsets pick different positions, and every stored position is picked by some offset, so sampling is uniform over stored entries. |
| Cooccurrence.Weight | glove/cooccurrence.go:44-47 | The weight of a counted pair lies in (0, 1]. |
| Cooccurrence.DocumentIDs | glove/cooccurrence.go:41 | One ID per document word, each in [0, len(Tokens)]. |
| Cooccurrence.CooccurCounter.constructor | glove/cooccurrence.go:7-36 | The counter holds the given tokens, matrix, window and weighting; the matrix has a row for every ID, the placeholder included. |
| Cooccurrence.CooccurCounter.AddPair | glove/cooccurrence.go:48-50 | The two read-modify-write `Set` calls add the weight to entry (id1, id2) and to entry (id2, id1), and twice to a diagonal entry. No other entry changes. |
| Cooccurrence.CooccurCounter.AddPosition | glove/cooccurrence.go:43-51 | One pass of the inner loop adds to every entry the hits of the counted pairs (i, j) with j < i. |
| Cooccurrence.CooccurCounter.Add | glove/cooccurrence.go:40-53 | Every cell grows by `Delta`, the sum over the visited pairs j < i (all pairs when the window is 0, else those at most `window` apart) of that pair's hits. |
| Cooccurrence.SkipUncounted | glove/cooccurrence.go:43 | The inner loop stops at the first pair outside the window, and every pair it skips is uncounted. |
| Cooccurrence.DeltaSymmetric | glove/cooccurrence.go:48-50 | The update is symmetric: (r, c) and (c, r) grow by the same amount. |
| Cooccurrence.DeltaOutsideIDs | glove/cooccurrence.go:41-50 | A cell whose row or column is not an ID of the document does not change. |
| Cooccurrence.DeltaCountsPairs | glove/cooccurrence.go:42-50 | Without weighting, (a, b) grows by the number of counted position pairs with IDs {a, b}, and a diagonal cell by twice that. |
| Cooccurrence.DeltaTotal | glove/cooccurrence.go:42-50 | Without weighting, when every ID of the document is below `bound`, the entries of the bound x bound matrix together grow by twice the number of counted position pairs. |
| Cooccurrence.GridSumPair | glove/cooccurrence.go:48-50 | One pair's two updates add its weight to two entries of the grid, or twice to one diagonal entry. |
| Cooccurrence.ShortDocument | glove/cooccurrence.go:42-43 | A document of length 0 or 1 changes nothing. |
| TokenSets.ID | token_set.go:35-41 | In [0, len(t)]; a result below len(t) names the token itself; an absent token gets len(t); in a sorted set a present token gets its first position. |
| TokenSets.IDs | token_set.go:44-50 | One ID per token, in order, each equal to `ID` of that token. |
| TokenSets.Token | token_set.go:56-61 | `t[id]` below len(t), and "" from len(t) on. |
| TokenSets.RoundTrip | token_set.go:35-61 | For a strictly sorted set: `Token(ID(tok)) == tok` for every member, and `ID(Token(i)) == i` for every position. |
| Tokenizing.Fields | tokenizer.go:40 | Every field is non-empty and contains no white space. |
| Tokenizing.SplitFieldsKeepsText | tokenizer.go:40 | The fields, concatenated, are the input with its white space removed. |
| Tokenizing.FieldsEmpty | tokenizer.go:40 | There are no fields exactly when the input is all white space. |
| Tokenizing.FieldsOfRun | tokenizer.go:40 | A non-empty string without white space is exactly one field, itself. |
| Tokenizing.FieldsAtSpace | tokenizer.go:40 | A white-space character separates fields: the fields of `a + [c] + b` are the fields of `a` followed by those of `b`. With `FieldsOfRun` and the empty case this fixes `strings.Fields` on every input. |
| Tokenizing.RunsProperties | tokenizer.go:51-68 | Separate mode: the tokens concatenate to the field; each is a single punctuation character or a non-empty punctuation-free run; no two runs are adjacent. |
| Tokenizing.RemovePunct | tokenizer.go:69-76 | Drop mode: the result has no punctuation, is no longer than the field, and is the field itself when the field has none; a single character is dropped exactly when it is punctuation. |
| Tokenizing.RemovePunctAppend | tokenizer.go:69-76 | Dropping punctuation keeps the other characters in order: it distributes over concatenation. |
| Tokenizing.SeparatePunct | tokenizer.go:51-68 | The character loop yields the runs of `Runs`. |
| Tokenizing.DropPunct | tokenizer.go:69-76 | The character loop yields `RemovePunct` of the field. |
| Tokenizing.HandlePunctuation | tokenizer.go:49-81 | A known mode gives that mode's tokens (`[field]` to include, the punctuation-free string to drop, the runs to separate); an unknown mode panics. |
| Tokenizing.Prepared | tokenizer.go:41-43 | Lower-casing (unless case is preserved) keeps the field's length. |
| Tokenizing.Tokenize | tokenizer.go:38-47 | A panic exactly when the mode is unknown and there is a field; otherwise the concatenation, in order, of each prepared field's tokens. |
| Tokenizing.SeparatedTokens | tokenizer.go:38-68 | In separate mode every token of the text is a punctuation character or a non-empty punctuation-free run. |
| TokenCounting.Occurrences | count.go:10-17 | The keys are exactly the tokens of the stream. |
| TokenCounting.CountTokens | count.go:10-17 | Each token maps to its number of occurrences, which is positive, and nothing else is a key. |
| TokenCounting.MostCommon | count.go:22-38 | Every key, in map order, when there are at most n; otherwise n distinct keys, each with a count at least that of every omitted key. |
| TokenCounting.ExampleOccurrences | count_test.go:9-19 | The stream c,a,a,b,b,a,c,d,c counts a:3, b:2, c:3, d:1. |
| TokenCounting.MostCommonExample | count_test.go:9-19 | For that stream, any most-common-2 answer is {a, c}. |
| Hierarchies.LeafCount | word2vec/hierarchy.go:156-160 | A tree has one more leaf than internal nodes. |
| Hierarchies.Compare | word2vec/hierarchy.go:125-154 | 0 exactly for the same value; -1 or 1 by probability and then by leftmost word; a panic exactly for different values that tie on both. |
| Hierarchies.CompareAntisymmetric | word2vec/hierarchy.go:125-154 | Swapping the arguments negates the result and keeps the panic cases. |
| Hierarchies.BeforeIsStrictWeakOrder | word2vec/hierarchy.go:125-154 | The order `Compare` implements is a strict weak order, so the sorted queue is well defined. |
| Hierarchies.PopMinProb | word2vec/hierarchy.go:107-118 | None exactly on an empty queue; otherwise it removes one value, and from a sorted queue the smallest one, leaving the rest sorted. |
| Hierarchies.MergeStep | word2vec/hierarchy.go:89-104 | One loop iteration pops the two smallest values and merges them, the second-smallest on the left and the probabilities summed. The queue shrinks by one, stays sorted, keeps its leaf words, and the final tree is unchanged. |
| Hierarchies.InsertLeaves | word2vec/hierarchy.go:86-88 | Inserting one leaf per word gives the sorted initial queue. |
| Hierarchies.BuildHuffman | word2vec/hierarchy.go:84-105 | The insert-then-merge loops give the tree that `HuffmanFrom` defines. |
| Hierarchies.ForestPermutation | word2vec/hierarchy.go:89-104 | The leaf words of a queue do not depend on its order. |
| Hierarchies.HuffmanWords | word2vec/hierarchy.go:89-104 | A non-empty queue yields a tree whose leaves are exactly the queue's leaf words. |
| Hierarchies.HuffmanTree | word2vec/hierarchy.go:84-105 | A panic exactly for an empty map; otherwise each word is a leaf exactly once and there are `len(words) - 1` internal nodes. |
| Hierarchies.InitialQueueUnique | word2vec/hierarchy.go:86-88 | The initial queue is the same for every map iteration order. |
| Hierarchies.CompareNeverPanics | word2vec/hierarchy.go:143-153 | Queue values never share a leftmost word, so `Compare`'s tie panic cannot happen while building. |
| Hierarchies.InitialNoRepeatedWord | word2vec/hierarchy.go:86-88 | The initial queue holds each word once. |
| Hierarchies.MergeKeepsNoRepeatedWord | word2vec/hierarchy.go:98-103 | A merge keeps each word at one leaf at most. |
| Hierarchies.LoopQueues | word2vec/hierarchy.go:89-104 | The queues the merging loop passes through: the first is the initial one, there are as many as the queue has values, and the last has at most one value and gives the same tree. |
| Hierarchies.LoopKeepsNoRepeatedWord | word2vec/hierarchy.go:89-104 | Every queue the loop reaches from a queue without a repeated word has none either. |
| Hierarchies.BuildNeverPanics | word2vec/hierarchy.go:84-153 | In every queue the loop passes through from the initial queue, two values at different positions compare without a panic. |
| Hierarchies.AssignNext | word2vec/hierarchy.go:162-175 | Numbering a subtree advances the counter by its number of internal nodes. |
| Hierarchies.AssignKeys | word2vec/hierarchy.go:162-166 | The words given paths are exactly the subtree's leaves. |
| Hierarchies.AssignPrefix | word2vec/hierarchy.go:168-174 | Every path under a node extends that node's path, and strictly so below a branch. |
| Hierarchies.AssignBounds | word2vec/hierarchy.go:168-174 | Absolute values strictly increase along every path and stay below the next free number. |
| Hierarchies.AssignPrefixFree | word2vec/hierarchy.go:168-174 | No word's path is a prefix of another word's path. |
| Hierarchies.AssignMax | word2vec/hierarchy.go:168-174 | The last number handed out appears in some path. |
| Hierarchies.HierarchyBuilder.constructor | word2vec/hierarchy.go:41-42 | An empty hierarchy, with numbering starting at 1. |
| Hierarchies.HierarchyBuilder.PutInHierarchy | word2vec/hierarchy.go:162-175 | The recursion adds the subtree's preorder numbering (left `-id`, right `+id`) to the map and advances the counter past it. |
| Hierarchies.BuildHierarchy | word2vec/hierarchy.go:39-45 | The built map is `HierarchyOf` the words, or the empty-map panic. |
| Hierarchies.HierarchyProperties | word2vec/hierarchy.go:39-45 | A panic exactly for no words. Otherwise: the keys are the words; the paths are prefix-free and climb; the largest absolute entry is `len(words) - 1`; every entry lies in [1, len(words)); a single word gets `[]`. |
| Hierarchies.HierarchyOrderIndependent | word2vec/hierarchy.go:39-45 | The hierarchy is the same for every map iteration order. |
| Hierarchies.NumNodes | word2vec/hierarchy.go:58-71 | The largest absolute path entry, or 0 when there is none. |
| Hierarchies.MaxAbsUnique | word2vec/hierarchy.go:58-71 | That maximum is unique. |
| Hierarchies.Paths | word2vec/hierarchy.go:49-55 | One entry per word, in order: its path, or the empty path when absent. |
| Hierarchies.ExampleHierarchy | word2vec/hierarchy_test.go:10-26 | {a:.501, b:.25, c:.125, d:.124} gives a:[-1], b:[1,-2], c:[1,2,-3], d:[1,2,3] for every iteration order. |
| PathHelpers.NodeIndexOfEntry | word2vec/helpers.go:46-52 | A non-zero element decodes to its absolute value minus 1, so `+k` and `-k` share index `k-1` and nothing else does. |
| PathHelpers.SortedNodesInPaths | word2vec/helpers.go:10-24 | Strictly increasing, and it holds exactly the decoded indices of all path elements. |
| PathHelpers.BuiltIndicesInRange | word2vec/helpers.go:46-52 | For paths from `BuildHierarchy`, every decoded index lies in [0, NumNodes()). |
| Samples.AllSamples | word2vec/sample.go:20-30 | One sample per word; sample i is `words[:i]`, `words[i]`, `words[i+1:]`, which put together give the words back. |
| Samples.Trim | word2vec/sample.go:34-43 | Keeps the word, the last `max` words of the left side and the first `max` of the right side. |
| Samples.TrimWithin | word2vec/sample.go:35-42 | A side already within `max` is unchanged. |
| Samples.TrimTwice | word2vec/sample.go:34-43 | Trimming by m1 then m2 is trimming by the smaller, so trimming is idempotent. |
| SkipGrams.WordToIndex | word2vec/skip_gram.go:64-76 | Each hierarchy word maps to its rank in ascending byte order. |
| SkipGrams.RankMapBijection | word2vec/skip_gram.go:64-76 | A rank map is a bijection from the words onto [0, k). |
| SkipGrams.RankMapUnique | word2vec/embed.go:42-45 | There is one rank map per word set, so `NewEmbed` and `wordToIndex` build the same map. |
| SkipGrams.RadiusAsWritten | word2vec/skip_gram.go:50 | For a draw in [0, MaxDist-MinDist], the radius `draw + MinDist` lies in [MinDist, MaxDist]. |
| SkipGrams.ZeroSettingsGiveNoContext | word2vec/skip_gram.go:22-28 | As written, zero `MinDist` and `MaxDist` give radius 0 and an empty context. |
| SkipGrams.Radius | word2vec/skip_gram.go:22-28 | With zero settings replaced by the documented defaults, the radius lies in the effective [min, max]. |
| SkipGrams.DefaultRadius | word2vec/skip_gram.go:10-11 | Under the defaults the radius is in [1, 5], and the nearest neighbour on each non-empty side is kept. |
| SkipGrams.StepWithRadius | word2vec/skip_gram.go:51-55 | For a given radius, the input is the single key `w2i[word]` with value 1 (key 0 for a word missing from the map); the context is the last `radius` left words and then the first `radius` right words, in order; each context word gets its hierarchy path, and an absent word gets `[]`. |
| SkipGrams.TrainStep | word2vec/skip_gram.go:49-55 | One iteration as written: the drawn sample, trimmed to the radius `draw + MinDist` drawn from `rand.Intn(MaxDist-MinDist+1)`, gives the step input described for `StepWithRadius`. |
| SkipGrams.ZeroSettingsStepHasNoContext | word2vec/skip_gram.go:50-55 | As written, zero settings give an iteration with no context word and no path. |
| SkipGrams.TrainStepWithDefaults | word2vec/skip_gram.go:22-28 | One iteration as documented: zero settings are replaced by the defaults before the radius is drawn, and the step input is as for `StepWithRadius` with that radius. |
| SkipGrams.DefaultStepKeepsNeighbours | word2vec/skip_gram.go:10-11 | Under the documented defaults every iteration's context holds the nearest word on each non-empty side. |
| Embeds.NewEmbed | word2vec/embed.go:46-61 | Keeps the matrix and maps each hierarchy word to its sorted rank. |
| Embeds.RowIndex | word2vec/embed.go:68-75 | The word's index, else the default word's, and nothing exactly when neither is present. |
| Embeds.Window | word2vec/embed.go:76-79 | A slice of `cols` values, which is the matrix range itself when in bounds. |
| Embeds.Lookup | word2vec/embed.go:68-79 | No row exactly when neither word is present; otherwise `cols = Len / len(WordToIndex)` and `start = cols * idx`. |
| Embeds.LookupInBounds | word2vec/embed.go:76-79 | When the matrix has one row of equal length per word, the range read is inside the matrix and is that row. |
| Embeds.LookupExample | word2vec/embed_test.go:14-29 | 10 values, 5 words, and an unknown word falling back to "c" read the slice [4, 6). |

## Left out

- `glove/train.go`: the AdaGrad training, its goroutine pool and serialization. This is concurrent floating-point code over external vector libraries.
- `glove/weighter.go`: float64 `math.Pow` weighting.
- `glove/embedding.go` and `embedding.go`: distance lookups over external vector types, and an interface declaration.
- `word2vec/net.go` and `costForPath` (`word2vec/helpers.go:26-44`): the neural network and its cost, which are built on the external autodiff library.
- Every `Serialize` and `Deserialize*` function, and the `init` registrations, because they depend on external serializer packages.
- `float32`/`float64` rounding: matrix values and weights are `real`.
- The splay tree in `word2vec/hierarchy.go`. It is modelled as a sequence kept sorted by the order `Compare` implements, so the tree's rotations and the identity of its nodes are not modelled.
- The in-place sorts (`sort.Ints`, `sort.Strings`, `essentials.VoodooSort`). They are modelled as a functional insertion sort, so the order among equal-count tokens in `MostCommon` follows that sort rather than `VoodooSort`.
- Go map iteration order, modelled as a parameter or an arbitrary choice.
- The channel in `CountTokens` and the `done` channel loop of `SkipGram.Train`. The stream is a sequence, and the model covers one loop iteration.
- `Net.Step`, the call that ends each training iteration.
- Slice aliasing: the model does not capture that every `Sample` from `AllSamples` shares the input's backing array, or that `Trim` shares its receiver's.
- The difference between a nil slice and an empty one: `Paths` gives `[]` for an absent word.
- `Embeds.Window`: the copy out of the matrix is modelled as the matrix range, zero-filled where it falls outside.
- Unicode character classes and `strings.ToLower`: these are parameters (`Classes`), not the `unicode` package's tables.
- `SparseMatrix.Add`, `TokenSet.NumIDs` and `TokenCounts.Add` appear only in tests. They are not part of this model.
- `Sparse.SparseVector.Set`: indices are not checked against `Len`, because the source does not check them either.
- TokenSets.Token: requires `0 <= id`. The source indexes `t[id]` for any id below `len(t)`, and so panics on a negative id; that panic is not modelled.
- Sparse.SparseMatrix.Get: requires a row in `[0, len(Rows))`. The source indexes `Rows[row]` and panics otherwise; that panic is not modelled.
- Sparse.SparseMatrix.Set: requires a row in `[0, len(Rows))`, for the same reason as `Get`; the panic on an out-of-range row is not modelled.
- TokenCounting.MostCommon: `n` is a `nat`. The source slices `tokens[:n]` and panics on a negative `n`; that panic is not modelled.
- Samples.Trim: `max` is a `nat`. The source panics on a negative `max` when it slices the sides; that panic is not modelled.
- SkipGrams.TrainStep: requires `MaxDist >= MinDist` and a non-negative radius. Otherwise the source panics in `rand.Intn` or in `Sample.Trim`; those panics are not modelled.
- SkipGrams.TrainStepWithDefaults: requires the same of the effective distances after the defaults are applied.
- `EntryPicker.RandomEntryPicker.Pick`: requires `numEntries > 0`, which the source also needs, and an unchanged matrix since construction.

## Findings

| source | as written | input that shows it | evidently intended | confidence | as-written member | corrected member |
|---|---|---|---|---|---|---|
| word2vec/skip_gram.go:22-28,50 | The doc comment says zero `MinDist`/`MaxDist` select the defaults 1 and 5. `Train` never applies them and uses the fields directly. | `MinDist = MaxDist = 0`: the radius is 0 and every context is empty (`ZeroSettingsGiveNoContext`, `ZeroSettingsStepHasNoContext`). | Zero settings fall back to `defaultMinDist`/`defaultMaxDist`, so the radius lies in [1, 5] and the nearest neighbours are always in the context (`DefaultRadius`, `DefaultStepKeepsNeighbours`). | not executed | SkipGrams.TrainStep | SkipGrams.TrainStepWithDefaults |
