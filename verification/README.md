# bc-recommender: a Dafny model of the item-based CF validator

This project models the pure logic of the bc-recommender's offline
evaluation of item-based collaborative filtering on the Book-Crossing
ratings, and proves properties of it in Dafny.

- `ItemCfValidator` reads the ratings file and drops implicit (0) ratings.
  It cuts the shuffled records into K contiguous folds. Each fold is then
  held out in turn: a rating table (items × users) and an item-item cosine
  similarity matrix are built from the other folds, every held-out record
  is predicted or skipped, and the mean absolute error (MAE) and root mean
  squared error (RMSE) of the predictions are averaged over the folds.
- `MathUtil` holds MAE, RMSE, dot product, magnitude and cosine similarity.
- `StringUtil` holds the text helpers: trim, lowerTrim, isNullEmptyOrBlank,
  concat, join, split, toParagraphs, truthy, slug and truncate.
- `FileUtil` holds the path join, the row serialisation of `write`, and the
  header skip and per-line split of `read`.

Modules:

| module | file | what it models |
|---|---|---|
| `Wrappers` | wrappers.dfy | `Option` (a nullable reference or a Guava `Optional`), `Result` (a call that returns or throws), the Java exceptions |
| `Sequences` | sequences.dfy | concatenation of a list of lists, subsequences |
| `StringUtil` | string_util.dfy | `StringUtil` |
| `StringUtilExamples` | string_util_examples.dfy | the expected outputs of `StringUtilTest`, as lemmas |
| `MathUtil` | math_util.dfy | `MathUtil`, over exact reals |
| `FileUtil` | file_util.dfy | the pure parts of `FileUtil` |
| `Records` | records.dfy | `Integer.parseInt` and the rating token of a record |
| `Folds` | folds.dfy | `removeImplicitRatings`, `extract`'s fold loop, the training set of `validate()` |
| `RatingTable` | rating_table.dfy | `ratingTable` and the lookups of the Guava table |
| `Triangle` | triangle.dfy | the shape of `similarityMatrix`'s upper-triangle loops |
| `Similarity` | similarity.dfy | `similarityMatrix` and `cosineSimilarity` of the validator |
| `Validation` | validation.dfy | `validate(trainSet, testSet)` and `validate()` |

Notes on the model:

- A Java exception is a `Result` failure naming the exception. No
  precondition stands in for a check the source performs.
- `ItemCf.predict` and `ItemCf.pairKey` belong to a class outside this
  model. They are function parameters, and nothing is assumed about them.
  `predict` answers `Option<int>`.
- `Collections.shuffle` is a parameter of `Folds.Extract`. It is required
  only to be a permutation.
- `File.separator` is a parameter of `FileUtil.Path`. `Math.sqrt` is a
  parameter `root` of `Validation.Validate`.
- RMSE, magnitude and cosine similarity are kept in squared form.
- The Guava table is kept as its list of cells in insertion order. That is
  the order of `rowKeySet`, and of the row maps of a sparse table.
- Guava's `ImmutableTable.Builder.build` throws `IllegalArgumentException`
  when two cells share a (row, column) key. The model follows this, so a
  training set with a repeated (item, user) pair fails. It does not keep
  the last rating.
- K comes from the `toy.folds` property. A negative K makes the static
  initializer's `new ArrayList<>(K_FOLDS)` throw IllegalArgumentException,
  so the validator never runs. `Folds.Extract` fails with IllegalArgument
  for a negative K, before anything else.
- Whitespace is Guava's `CharMatcher.whitespace()` table, written out
  character by character.

## Model

| member | source | states |
|---|---|---|
| StringUtil.TrimFrom | src/main/java/com/sgcharts/bcrecommender/StringUtil.java:78 | the result is the input with a whitespace prefix and suffix removed, and has no whitespace at either end |
| StringUtil.Trim | src/main/java/com/sgcharts/bcrecommender/StringUtil.java:74-79 | null trims to ""; otherwise the result is a trim of the input: only leading and trailing whitespace removed, none left at the ends |
| StringUtil.TrimUnique | src/main/java/com/sgcharts/bcrecommender/StringUtil.java:74-79 | any two strings that are trims of the same input are equal, so the trim property determines trim's result |
| StringUtil.LowerTrim | src/main/java/com/sgcharts/bcrecommender/StringUtil.java:81-83 | each character of the result is the lower-case form of the same character of the trimmed input, so the result is as long as the trim, still trimmed, and holds no upper-case ASCII letter |
| StringUtil.LowerTrimIdempotent | src/main/java/com/sgcharts/bcrecommender/StringUtil.java:81-83 | lowerTrim of a lowerTrim result changes nothing |
| StringUtil.TrimEmptyIffBlank | src/main/java/com/sgcharts/bcrecommender/StringUtil.java:85-88 | a string trims to "" exactly when all its characters are whitespace |
| StringUtil.IsNullEmptyOrBlank | src/main/java/com/sgcharts/bcrecommender/StringUtil.java:85-88 | true exactly for null and for all-whitespace strings (the empty one included) |
| StringUtil.Concat | src/main/java/com/sgcharts/bcrecommender/StringUtil.java:90-96 | the text is every argument's text one after another, "null" for a null argument |
| StringUtil.ConcatAppend | src/main/java/com/sgcharts/bcrecommender/StringUtil.java:90-96 | concat of two argument lists put together is the concatenation of their results |
| StringUtil.JoinAllSnoc | src/main/java/com/sgcharts/bcrecommender/StringUtil.java:98-102 | joining one more part adds the separator and that part at the end |
| StringUtil.Present | src/main/java/com/sgcharts/bcrecommender/StringUtil.java:99-100 | skipNulls keeps exactly the non-null parts |
| StringUtil.JoinSkipsNulls | src/main/java/com/sgcharts/bcrecommender/StringUtil.java:98-102 | removing a null part from anywhere in the list leaves the joined text unchanged: nulls add neither text nor a separator |
| StringUtil.Join | src/main/java/com/sgcharts/bcrecommender/StringUtil.java:98-102 | with no non-null part the text is empty; with a one-character separator that no part contains, splitting the text at it gives back exactly the non-null parts in order |
| StringUtil.Pieces | src/main/java/com/sgcharts/bcrecommender/StringUtil.java:132 | splitting on a matcher gives one more piece than there are matching characters, and no piece holds a matching character |
| StringUtil.NonEmpty | src/main/java/com/sgcharts/bcrecommender/StringUtil.java:134-136 | omitEmptyStrings keeps every non-empty piece and only those |
| StringUtil.Split | src/main/java/com/sgcharts/bcrecommender/StringUtil.java:130-138 | every piece is trimmed and holds no separator; with omitEmptyStrings none is empty; without it there are #separators + 1 pieces |
| StringUtil.JoinPieces | src/main/java/com/sgcharts/bcrecommender/StringUtil.java:132 | splitting at a single separator character and joining with that character gives the text back |
| StringUtil.PiecesOfJoin | src/main/java/com/sgcharts/bcrecommender/StringUtil.java:132 | joining separator-free parts with a separator character and splitting there gives the parts back |
| StringUtil.SplitJoinRoundTrip | src/main/java/com/sgcharts/bcrecommender/StringUtil.java:130-138 | without omitEmptyStrings, split undoes a join of trimmed, separator-free parts |
| StringUtil.SplitOmitJoin | src/main/java/com/sgcharts/bcrecommender/StringUtil.java:130-138 | with omitEmptyStrings, splitting a join of separator-free parts gives the trimmed parts in order, less those that trim to nothing |
| StringUtil.SplitOmitJoinRoundTrip | src/main/java/com/sgcharts/bcrecommender/StringUtil.java:130-138 | with omitEmptyStrings, split undoes a join of non-empty, trimmed, separator-free parts |
| StringUtil.ToParagraphs | src/main/java/com/sgcharts/bcrecommender/StringUtil.java:48-53 | null gives no paragraphs; every paragraph is non-empty, trimmed and holds no line break |
| StringUtil.ParagraphsOfLines | src/main/java/com/sgcharts/bcrecommender/StringUtil.java:48-53 | for lines without line breaks joined by '\n', the paragraphs are the lines, trimmed, with the blank ones left out |
| StringUtil.Truthy | src/main/java/com/sgcharts/bcrecommender/StringUtil.java:161-167 | a null argument fails (Java throws NullPointerException from toLowerCase); otherwise the answer is true exactly when the string spells one of "y", "yes", "1", "true" in any mix of ASCII letter case, so a true answer has length 1, 3 or 4 |
| StringUtil.TruthyIgnoresCase | src/main/java/com/sgcharts/bcrecommender/StringUtil.java:161-167 | two strings that differ only in ASCII letter case get the same answer |
| StringUtil.Slug | src/main/java/com/sgcharts/bcrecommender/StringUtil.java:111-128 | the slug holds only [0-9a-z-], is no longer than the trimmed input, and is "" for null or blank input |
| StringUtil.RetainCollapse | src/main/java/com/sgcharts/bcrecommender/StringUtil.java:122-126 | collapsing runs of characters that the retain step drops changes nothing that step keeps |
| StringUtil.SlugKeepsLettersAndDigits | src/main/java/com/sgcharts/bcrecommender/StringUtil.java:111-128 | the slug's digits and lower-case letters are exactly those of the lower-cased trimmed input, in order |
| StringUtil.LastIndexOf | src/main/java/com/sgcharts/bcrecommender/StringUtil.java:184 | the result is -1 or an index at most `from` holding the character, and no later index up to `from` holds it |
| StringUtil.Truncate | src/main/java/com/sgcharts/bcrecommender/StringUtil.java:169-198 | null throws IllegalArgument; a string that fits is returned unchanged; a negative cut throws; otherwise the result is a prefix of the input, plus "..." with appendDots, of length at most `length`; the plain cut is exactly `length` (or `length` - 3); the word-safe cut ends at the last space in (0, cut], or at the cut when there is none |
| StringUtilExamples.TruncateExamples | src/test/java/com/sgcharts/bcrecommender/StringUtilTest.java:152-162 | the expected outputs for "the quick brown fox" at lengths 100 and 13, with every combination of the flags |
| StringUtilExamples.TruncateLeadingSpace | src/test/java/com/sgcharts/bcrecommender/StringUtilTest.java:163-164 | a space at index 0 is not a word boundary: " thequickbrownfox" at 5 gives " theq", or " t..." with dots |
| StringUtilExamples.TruthyExamples | src/test/java/com/sgcharts/bcrecommender/StringUtilTest.java:122-124 | "y", "yes" and "1" are truthy; "n", "no" and "0" are not |
| MathUtil.MeanAbsoluteError | src/main/java/com/sgcharts/bcrecommender/MathUtil.java:13-33 | empty or unequal-length arrays throw IllegalArgument; otherwise the result is non-negative, and zero exactly when the arrays are equal |
| MathUtil.MeanSquaredError | src/main/java/com/sgcharts/bcrecommender/MathUtil.java:35-55 | the same checks; RMSE squared is non-negative, and zero exactly when the arrays are equal |
| MathUtil.MeanAbsoluteErrorSymmetric | src/main/java/com/sgcharts/bcrecommender/MathUtil.java:28-32 | swapping expected and actual changes neither the result nor the failure |
| MathUtil.MeanSquaredErrorSymmetric | src/main/java/com/sgcharts/bcrecommender/MathUtil.java:50-54 | swapping expected and actual changes neither the result nor the failure |
| MathUtil.RootMeanSquaredErrorAtLeastMae | src/main/java/com/sgcharts/bcrecommender/MathUtil.java:13-55 | on the same valid arguments, RMSE^2 >= MAE^2, so RMSE >= MAE |
| MathUtil.EqualErrorsRmseIsMae | src/main/java/com/sgcharts/bcrecommender/MathUtil.java:28-54 | when every error has the same magnitude, RMSE^2 == MAE^2 |
| MathUtil.CauchySchwarz | src/main/java/com/sgcharts/bcrecommender/MathUtil.java:57-62 | (Σ u_i v_i)^2 <= Σ u_i^2 · Σ v_i^2, which bounds cosine similarity to [-1, 1] |
| MathUtil.DotProduct | src/main/java/com/sgcharts/bcrecommender/MathUtil.java:64-84 | empty or unequal-length arrays throw IllegalArgument, and otherwise it succeeds |
| MathUtil.DotProductSymmetric | src/main/java/com/sgcharts/bcrecommender/MathUtil.java:64-84 | swapping the arguments changes neither the result nor the failure |
| MathUtil.DotSumSelf | src/main/java/com/sgcharts/bcrecommender/MathUtil.java:80-95 | an array's dot product with itself is its sum of squares, the square of its magnitude |
| MathUtil.DoubleToInt | src/main/java/com/sgcharts/bcrecommender/MathUtil.java:93 | the narrowing of `sum += ...` (section 5.1.3 of the Java Language Specification): MAX_VALUE at or above it, MIN_VALUE at or below it, and otherwise the value rounded toward zero |
| MathUtil.IntSumOfSquaresBounds | src/main/java/com/sgcharts/bcrecommender/MathUtil.java:91-94 | the int accumulator stays in [0, Integer.MAX_VALUE] and never exceeds the exact sum of squares |
| MathUtil.MagnitudeSquaredAsWritten | src/main/java/com/sgcharts/bcrecommender/MathUtil.java:86-96 | an empty array throws IllegalArgument; otherwise the squared magnitude as written is a non-negative int no larger than the sum of squares |
| MathUtil.MagnitudeSquared | src/main/java/com/sgcharts/bcrecommender/MathUtil.java:86-96 | with a double accumulator: an empty array throws; the squared magnitude is the array's dot product with itself (the sum of squares), non-negative, and positive exactly when some entry is non-zero |
| MathUtil.MagnitudeAgreesOnIntegers | src/main/java/com/sgcharts/bcrecommender/MathUtil.java:86-96 | on integer-valued arrays whose sum of squares fits in an int, the two magnitudes agree |
| MathUtil.CosineSimilarityAsWritten | src/main/java/com/sgcharts/bcrecommender/MathUtil.java:57-62 | fails exactly as dotProduct does; otherwise the numerator is the dot product and the two squared denominators are the as-written int magnitudes of the arrays |
| MathUtil.CosineSimilarity | src/main/java/com/sgcharts/bcrecommender/MathUtil.java:57-62 | the same failures and numerator; the two squared denominators are the corrected magnitudes of the arrays, and the result lies in [-1, 1] |
| MathUtil.CosineSimilaritySymmetric | src/main/java/com/sgcharts/bcrecommender/MathUtil.java:57-62 | swapping the arrays gives the same numerator over the same two magnitudes |
| MathUtil.CosineSimilarityDefined | src/main/java/com/sgcharts/bcrecommender/MathUtil.java:57-62 | when neither array is all zeros, the denominator is non-zero |
| MathUtil.CosineAsWrittenOutOfRange | src/main/java/com/sgcharts/bcrecommender/MathUtil.java:91-95 | for [1.5] with itself, the as-written cosine is 2.25 / 2, outside [-1, 1]; for [0.5] with itself, its denominator is 0 |
| MathUtil.CosineAsWrittenSaturates | src/main/java/com/sgcharts/bcrecommender/MathUtil.java:91-95 | for the integer array [50000] with itself, the int accumulator saturates at Integer.MAX_VALUE and the as-written cosine is 2.5e9 / MAX_VALUE, above 1 |
| MathUtil.CosineAgreesOnIntegers | src/main/java/com/sgcharts/bcrecommender/MathUtil.java:57-96 | on integer-valued arrays with int-sized sums of squares, the as-written and corrected cosines are equal |
| FileUtil.Path | src/main/java/com/sgcharts/bcrecommender/FileUtil.java:39-54 | a null or empty parent or filename throws IllegalArgument; otherwise the path starts with the parent and ends with the filename, with the separator between them exactly when the parent does not already end with it |
| FileUtil.PathNested | src/main/java/com/sgcharts/bcrecommender/FileUtil.java:48-53 | a directory that ends with the separator gets no second separator |
| FileUtil.AppendRow | src/main/java/com/sgcharts/bcrecommender/FileUtil.java:170-179 | the inner loop appends exactly one row's text |
| FileUtil.Render | src/main/java/com/sgcharts/bcrecommender/FileUtil.java:160-182 | null or empty data throws IllegalArgument; otherwise the text is the rows' texts in order |
| FileUtil.RowTextIsLine | src/main/java/com/sgcharts/bcrecommender/FileUtil.java:169-180 | a non-empty row is written as its values joined by the separator plus one '\n'; an empty row is written as nothing |
| FileUtil.RenderedIsTerminated | src/main/java/com/sgcharts/bcrecommender/FileUtil.java:169-180 | the text is the non-empty rows' lines, each followed by '\n' |
| FileUtil.RenderedLines | src/main/java/com/sgcharts/bcrecommender/FileUtil.java:169-180 | when no value or separator holds '\n', the text has one '\n' per non-empty row, and reading its lines gives the joined rows |
| FileUtil.Lines | src/main/java/com/sgcharts/bcrecommender/FileUtil.java:114 | the lines readLine yields contain no '\n' |
| FileUtil.HeaderLines | src/main/java/com/sgcharts/bcrecommender/FileUtil.java:110-112 | the header loop consumes nHeaderRows lines, none when it is not positive, and at most the lines there are |
| FileUtil.SplitLines | src/main/java/com/sgcharts/bcrecommender/FileUtil.java:114-117 | one split row per line, in order |
| FileUtil.Read | src/main/java/com/sgcharts/bcrecommender/FileUtil.java:70-124 | a blank or null path throws IllegalArgument; otherwise line k after the header becomes row k - h, split with the separator (whitespace when null) |
| FileUtil.ReadSkipsHeader | src/main/java/com/sgcharts/bcrecommender/FileUtil.java:110-117 | reading with h header rows is reading the lines after the first h with none |
| FileUtil.SplitRowLines | src/main/java/com/sgcharts/bcrecommender/FileUtil.java:114-117 | splitting each written line at its single separator character gives that row's values back |
| FileUtil.ReadRendered | src/main/java/com/sgcharts/bcrecommender/FileUtil.java:110-117 | reading back what write produced gives the values of the non-empty rows, for trimmed values free of separator and '\n' characters |
| Records.ParseInt | src/main/java/com/sgcharts/bcrecommender/ItemCfValidator.java:340 | accepts exactly an optional '-' or '+' followed by one or more ASCII digits, whose signed value is in the int range, and then returns that value; everything else is NumberFormatException |
| Records.ParseDecimal | src/main/java/com/sgcharts/bcrecommender/ItemCfValidator.java:340 | parseInt reads every int back from its decimal form |
| Records.ParseIntRejects | src/main/java/com/sgcharts/bcrecommender/ItemCfValidator.java:340 | "", "-" and "7.5" throw NumberFormatException |
| Records.ParseIntSigned | src/main/java/com/sgcharts/bcrecommender/ItemCfValidator.java:340 | "+8" parses to 8 and "-12" to -12 |
| Records.ParseIntOverflow | src/main/java/com/sgcharts/bcrecommender/ItemCfValidator.java:340 | "2147483648" throws NumberFormatException |
| Records.RatingValue | src/main/java/com/sgcharts/bcrecommender/ItemCfValidator.java:339-340 | fewer than three tokens throws IndexOutOfBounds; an unparsable rating throws NumberFormat; otherwise the parsed rating |
| Folds.RemoveImplicitRatings | src/main/java/com/sgcharts/bcrecommender/ItemCfValidator.java:335-346 | fails exactly when some record has no parsable rating, with the first such record's exception; otherwise returns the explicit records |
| Folds.ExplicitMembers | src/main/java/com/sgcharts/bcrecommender/ItemCfValidator.java:339-344 | a record is kept exactly when it is in the input and its rating is not 0 |
| Folds.ExplicitIsSubsequence | src/main/java/com/sgcharts/bcrecommender/ItemCfValidator.java:335-346 | the kept records appear in their original order |
| Folds.ExplicitIdempotent | src/main/java/com/sgcharts/bcrecommender/ItemCfValidator.java:335-346 | filtering twice is filtering once |
| Folds.ExplicitLength | src/main/java/com/sgcharts/bcrecommender/ItemCfValidator.java:335-346 | no more records than the input, and as many exactly when every record is explicit |
| Folds.FoldBounds | src/main/java/com/sgcharts/bcrecommender/ItemCfValidator.java:311-324 | each fold starts where the previous one ends, holds n / K records, and the last ends at n |
| Folds.Partition | src/main/java/com/sgcharts/bcrecommender/ItemCfValidator.java:311-324 | K = 0 throws ArithmeticException and K < 0 gives no folds; otherwise there are K contiguous folds that concatenate to the input, with the first K - 1 of n / K records and the last holding the rest |
| Folds.OthersAndTest | src/main/java/com/sgcharts/bcrecommender/ItemCfValidator.java:109-118 | the training set and the test fold together are all the records: the lengths add up, and the multisets add up |
| Folds.TrainingSet | src/main/java/com/sgcharts/bcrecommender/ItemCfValidator.java:110-117 | the loop gives every fold except fold k, concatenated in order |
| Folds.FoldsExplicit | src/main/java/com/sgcharts/bcrecommender/ItemCfValidator.java:309-324 | every record of every fold is an explicit rating |
| Folds.Extract | src/main/java/com/sgcharts/bcrecommender/ItemCfValidator.java:295-327 | a negative K fails with IllegalArgument (the static initializer); otherwise fails on a blank path, on a record without a parsable rating, or for K = 0, with the matching exception; a success holds K folds of explicit records, together a permutation of all the explicit records |
| RatingTable.CellOf | src/main/java/com/sgcharts/bcrecommender/ItemCfValidator.java:86-91 | a record gives the cell (lower-cased item, lower-cased user, rating), or the record's parse exception |
| RatingTable.Cells | src/main/java/com/sgcharts/bcrecommender/ItemCfValidator.java:85-92 | succeeds exactly when every record is well formed; then cell k has record k's key and rating; otherwise the first bad record's exception |
| RatingTable.BuildTable | src/main/java/com/sgcharts/bcrecommender/ItemCfValidator.java:77-96 | succeeds exactly when every record is well formed and their (item, user) keys are distinct; a repeated key throws IllegalArgument; the table has unique keys and one cell per record |
| RatingTable.Lookup | src/main/java/com/sgcharts/bcrecommender/ItemCfValidator.java:231 | absent exactly when no cell has the key; a found rating is that of a cell with the key |
| RatingTable.LookupCell | src/main/java/com/sgcharts/bcrecommender/ItemCfValidator.java:231 | with unique keys every cell is found under its own key |
| RatingTable.BuildTableLookup | src/main/java/com/sgcharts/bcrecommender/ItemCfValidator.java:85-95 | every training record's rating is found under its lower-cased key, and every rating found comes from a record |
| RatingTable.ItemsOf | src/main/java/com/sgcharts/bcrecommender/ItemCfValidator.java:203-204 | rowKeySet holds each item of the table exactly once |
| RatingTable.RatersOf | src/main/java/com/sgcharts/bcrecommender/ItemCfValidator.java:233 | an item's raters are exactly the users with a cell in its row |
| RatingTable.RatersDistinct | src/main/java/com/sgcharts/bcrecommender/ItemCfValidator.java:233 | with unique keys no rater is listed twice |
| Similarity.Intersect | src/main/java/com/sgcharts/bcrecommender/ItemCfValidator.java:239 | Sets.intersection holds exactly the elements in both lists, in the first list's order |
| Similarity.CommonRaters | src/main/java/com/sgcharts/bcrecommender/ItemCfValidator.java:239 | a user is a common rater exactly when both items have the user's rating |
| Similarity.CommonRatersDistinct | src/main/java/com/sgcharts/bcrecommender/ItemCfValidator.java:239 | in a built table no common rater appears twice |
| Similarity.VectorsAligned | src/main/java/com/sgcharts/bcrecommender/ItemCfValidator.java:276-284 | both vectors are as long as the list of common raters, and position k holds both items' ratings by rater k |
| Similarity.Sim | src/main/java/com/sgcharts/bcrecommender/ItemCfValidator.java:273-287 | with a rater in common, cosineSimilarity cannot throw; computed with the corrected magnitude, its value is in [-1, 1] |
| Similarity.SimMatchesSource | src/main/java/com/sgcharts/bcrecommender/ItemCfValidator.java:273-287 | while both items' sums of squared ratings over the common raters fit in an int, the source's as-written cosineSimilarity of the two vectors gives exactly Sim |
| Similarity.SimDivergesOnLargeRatings | src/main/java/com/sgcharts/bcrecommender/ItemCfValidator.java:273-287 | two items rated 50000 by one user: the source's cosine is 2.5e9 / Integer.MAX_VALUE, above 1, while Sim stays in [-1, 1] |
| Similarity.SimDefined | src/main/java/com/sgcharts/bcrecommender/ItemCfValidator.java:273-287 | with non-zero ratings, the similarity of items with a common rater has a non-zero denominator |
| Similarity.SharedIffRatedByOne | src/main/java/com/sgcharts/bcrecommender/ItemCfValidator.java:239-243 | a pair is not skipped exactly when some user rated both items |
| Similarity.Matrix | src/main/java/com/sgcharts/bcrecommender/ItemCfValidator.java:228-253 | only pairs i < j with a rater in common are stored, each under its key with its (corrected) similarity; every such pair is stored, with its own similarity when pairKey tells pairs apart; at most n(n-1)/2 entries |
| Similarity.SimilarityMatrix | src/main/java/com/sgcharts/bcrecommender/ItemCfValidator.java:196-258 | the loops build Matrix: every stored key comes from a pair i < j with a common rater and holds that pair's (corrected) similarity; every such pair's key is stored, with its own similarity when pairKey tells pairs apart; at most n(n-1)/2 entries |
| Similarity.MatrixSound | src/main/java/com/sgcharts/bcrecommender/ItemCfValidator.java:239-251 | the finished loops store only pairs with a rater in common, each under its key with its (corrected) similarity |
| Similarity.MatrixComplete | src/main/java/com/sgcharts/bcrecommender/ItemCfValidator.java:239-251 | after the loops every pair with a rater in common has its key stored, with its own similarity when pairKey tells pairs apart |
| Triangle.Loops | src/main/java/com/sgcharts/bcrecommender/ItemCfValidator.java:228-253 | the nested loops compute the map of the pairs visited in order i < j |
| Triangle.DoneSound | src/main/java/com/sgcharts/bcrecommender/ItemCfValidator.java:228-253 | every key stored so far comes from a kept pair already visited, with the last value written |
| Triangle.DoneComplete | src/main/java/com/sgcharts/bcrecommender/ItemCfValidator.java:228-253 | every kept pair already visited has its key stored |
| Triangle.DoneSize | src/main/java/com/sgcharts/bcrecommender/ItemCfValidator.java:228-229 | the map has at most as many entries as pairs visited |
| Triangle.ExactValues | src/main/java/com/sgcharts/bcrecommender/ItemCfValidator.java:244-251 | with distinct keys, each stored key holds its own pair's value |
| Triangle.FinalSound | src/main/java/com/sgcharts/bcrecommender/ItemCfValidator.java:228-253 | after the loops, every key comes from a kept pair a < b and holds that pair's value |
| Triangle.FinalComplete | src/main/java/com/sgcharts/bcrecommender/ItemCfValidator.java:228-253 | after the loops, every kept pair a < b has its key, with its own value when keys are distinct |
| Triangle.FinalSize | src/main/java/com/sgcharts/bcrecommender/ItemCfValidator.java:228-229 | the finished map has at most n(n-1)/2 entries |
| Validation.AnsweredAtExactly | src/main/java/com/sgcharts/bcrecommender/ItemCfValidator.java:164-168 | the predicted positions are increasing, and position k is among them exactly when predict answers record k |
| Validation.Evaluate | src/main/java/com/sgcharts/bcrecommender/ItemCfValidator.java:158-173 | the test loop succeeds exactly when every record is well formed, and otherwise stops at the first bad record with its exception |
| Validation.EvaluateAccounts | src/main/java/com/sgcharts/bcrecommender/ItemCfValidator.java:158-173 | the predictions and actual ratings are those of the answered records, in order, and every other record is counted as skipped |
| Validation.AccountsAnswered | src/main/java/com/sgcharts/bcrecommender/ItemCfValidator.java:169-171 | an answered record adds one prediction and its actual rating |
| Validation.AccountsSkipped | src/main/java/com/sgcharts/bcrecommender/ItemCfValidator.java:165-167 | an unanswered record only increments the skip count |
| Validation.EvaluateCounts | src/main/java/com/sgcharts/bcrecommender/ItemCfValidator.java:158-182 | as many predictions as actual ratings, and predictions + skipped = size of the test set |
| Validation.ValidateFoldOutcome | src/main/java/com/sgcharts/bcrecommender/ItemCfValidator.java:174-180 | with a good table and test set, the fold succeeds exactly when predict answers some record; when all are skipped, the MAE call throws IllegalArgument |
| Validation.ValidateFold | src/main/java/com/sgcharts/bcrecommender/ItemCfValidator.java:144-186 | a bad training set fails the fold with the table's exception; a successful fold reports the test loop's prediction and skip counts and the MAE and MSE of its predictions against its actual ratings, with at least one prediction, counts that add up to the test set, MAE >= 0 and RMSE >= MAE |
| Validation.ValidateFoldErrors | src/main/java/com/sgcharts/bcrecommender/ItemCfValidator.java:148-163 | a bad training set fails the fold with the table's exception, and a bad test record with the first one's |
| Validation.RunnerSound | src/main/java/com/sgcharts/bcrecommender/ItemCfValidator.java:144-186 | every successful fold is consistent and accounts for its test set |
| Validation.RunFolds | src/main/java/com/sgcharts/bcrecommender/ItemCfValidator.java:109-127 | succeeds exactly when every fold does, and otherwise fails with the first failing fold's exception; result f is fold f's outcome; the sums are those of the results; the total counts add up to all the records |
| Validation.Validate | src/main/java/com/sgcharts/bcrecommender/ItemCfValidator.java:101-132 | the same failure cases; when there is at least one fold, the averages are the error sums over K; the average MAE is non-negative and, with a true square root, the average RMSE is at least the average MAE; predictions + skipped = all the records |
| Validation.SumMaeBound | src/main/java/com/sgcharts/bcrecommender/ItemCfValidator.java:119-120 | over consistent folds the MAE sum is non-negative and at most the RMSE sum |

## Left out

- `main`, timing, logging, progress counters, the HashMap sizing and
  `System.getProperty` configuration: process plumbing with no effect on
  the results.
- `Collections.shuffle` is randomness. `Folds.Extract` takes any permutation
  as a parameter.
- The bodies of `ItemCf.predict` and `ItemCf.pairKey` are not part of this
  model. They are parameters, and no formula or symmetry is assumed.
- IEEE `double` and `float` arithmetic is modelled over exact reals. This
  covers the `(float)` narrowing of the similarity, the rounding of
  `Math.pow`, and NaN and infinity. The int narrowing of `magnitude`'s
  accumulator is modelled exactly (`MathUtil.DoubleToInt`).
- MathUtil.MeanSquaredError: states RMSE by its square, because `Math.sqrt`
  is not modelled. `Validation.Validate` takes the square root as the
  parameter `root`.
- MathUtil.CosineSimilarity: returns the numerator and the two squared
  magnitudes rather than the quotient, for the same reason.
- Validation.Validate: K is the number of folds, and `Folds.Extract` only
  succeeds with K >= 1 folds. For K = 0 `extract` throws before `validate()`
  runs, and for a negative K the class never initializes. On an empty list
  of folds, which never reaches it, `Validate` reports 0.0 averages.
- Validation.Validate: the int counters `predictionCount` and
  `skippedCount` are unbounded here. Their 32-bit overflow is not modelled.
- Validation.Evaluate: `validate(trainSet, testSet)` parses the actual
  rating with `Double.parseDouble`. The model parses it with
  `Records.ParseInt`, as `removeImplicitRatings` does. For a rating token of
  ASCII digits that passed `parseInt`, `Double.parseDouble` cannot fail and
  gives the same value. A token with other Unicode decimal digits, such as
  "\uFF15", passes `parseInt` in `removeImplicitRatings`, but then throws
  NumberFormatException from `Double.parseDouble` in `validate()`, in the
  fold that holds the record out. The model rejects it earlier, in
  `Folds.RemoveImplicitRatings` (see `Records.ParseInt` below).
- A `null` array is not modelled: the arrays of `MathUtil` are `seq<real>`,
  so the null checks of `dotProduct`, `magnitude`, `meanAbsoluteError` and
  `rootMeanSquaredError` have no counterpart. The validator never passes
  null.
- Unicode case mapping is left out: `toLowerCase` is modelled on ASCII
  letters only.
- Records.ParseInt: accepts ASCII digits only. `Integer.parseInt` also
  accepts every other Unicode decimal digit (`Character.digit`), so a
  rating token such as "\uFF15" (fullwidth 5) is kept by Java and rejected
  here with NumberFormat.
- StringUtil.Truncate: lengths and cut positions count Dafny `char`s, which
  are Unicode scalar values. Java counts UTF-16 code units. The two differ
  on characters outside the Basic Multilingual Plane. Java can cut such a
  character in half, but the model cannot. The same holds for the length
  bound of `StringUtil.Slug`.
- File access is left out: opening and closing readers, `readFirstLine`,
  the `write` overloads that touch the disk, and `widthAndHeight`. `read`
  works on the lines of the file, and `write`'s text is the result.
- FileUtil.Lines: splits on '\n' only, where `readLine` also ends lines
  at '\r' and "\r\n".
- `escapeHtml` (all overloads), `trimAndEscapeHtml`, `getBytesInUtf8` and
  `countBytesInUtf8` depend on Guava's HTML escaper and on the UTF-8 encoder.
- The `split` overloads taking a `String` separator and the `truncate` and
  `truncateWordSafe` overloads only fix arguments of the modelled ones.
- StringUtil.Slug: states the slug's alphabet, its length and what it keeps.
  It does not state where hyphens end up, because that is just the body
  restated.
- The unit tests for trim, lowerTrim, isNullEmptyOrBlank, concat, join,
  split and slug are not restated as concrete lemmas. Evaluating them
  symbolically is too costly for the verifier. Their general forms are
  proved instead (`TrimUnique`, `IsNullEmptyOrBlank`, `JoinSkipsNulls`,
  `SplitJoinRoundTrip` and `SplitOmitJoin` for the two forms of split,
  `SlugKeepsLettersAndDigits`). The split tests' inputs are joins of their
  pieces, so `SplitOmitJoin` gives their expected words.
- Similarity.Sim: uses the corrected cosine (`MathUtil.CosineSimilarity`).
  The source calls the as-written one, whose int accumulator saturates.
  The two agree whenever both items' sums of squared ratings over their
  common raters fit in an int (`Similarity.SimMatchesSource`). Above that,
  the source's value exceeds 1 (`Similarity.SimDivergesOnLargeRatings`).
  `removeImplicitRatings` keeps any non-zero int rating, so nothing in the
  code rules this out.
- Similarity.SimilarityMatrix: stores `Sim`, the corrected cosine, and
  so differs from the source exactly where `Sim` does.
- Similarity.MatrixSound: "its similarity" is `Sim`, the corrected cosine,
  with the same caveat.
- Guava builds a dense `ImmutableTable` for some inputs, and iterates its
  rows' raters in column order rather than insertion order. Only the
  insertion order is modelled. The order changes which common rater comes
  first, but not the similarity's value.

## Findings

| source | as written | input that shows it | evidently intended | confidence | as-written member | corrected member |
|---|---|---|---|---|---|---|
| src/main/java/com/sgcharts/bcrecommender/MathUtil.java:91-95 | `magnitude` accumulates in an `int`, so `sum += arr[i] * arr[i]` truncates the running sum toward zero at every step, and saturates it at Integer.MAX_VALUE | `cosineSimilarity([1.5], [1.5])` computes 2.25 / (sqrt(2) · sqrt(2)) = 1.125, outside [-1, 1]; `cosineSimilarity([0.5], [0.5])` divides by 0 | a `double` accumulator, giving the exact Euclidean norm, so that cosine similarity lies in [-1, 1] | not executed | MathUtil.CosineAsWrittenOutOfRange | MathUtil.CosineSimilarity |

The rating vectors of the validator hold int ratings. On integer arrays the
two versions agree whenever each sum of squares fits in an int
(`MathUtil.CosineAgreesOnIntegers`). Above that bound the int accumulator
saturates, and the as-written cosine again leaves [-1, 1]
(`MathUtil.CosineAsWrittenSaturates`, `Similarity.SimDivergesOnLargeRatings`).
The similarity matrix uses the corrected version.
