# Airbnb similar listings: the deterministic core, in Dafny

The system takes a table of Airbnb listings, cleans it, writes three narrative
summaries per listing, embeds and clusters them, and stores for every listing
the comma-joined ids of the listings in its cluster. The model covers the four
pieces of that pipeline that are plain table or string logic:

- **Data cleaning** (`Dataset`, `ml/data/make_dataset.py`). The table is
  projected onto the fixed 24-column listing schema; a missing column raises
  `KeyError`. Columns that are mostly null are dropped. String nulls become
  `''` and numeric nulls the column mean. Then `$` and `,` are stripped from
  `price` and it is parsed. A table is column-major: a row count and named
  columns of nullable cells, each tagged `object` or numeric as pandas'
  `select_dtypes` sees it.
- **Narrative builders** (`Features`, `ml/features/build_features.py`):
  `create_overview`, `evaluate_listing` and `construct_high_level_overview`.
  Scores are `Option<real>`, and a null score compares false like NaN. The
  float formatters `:.2f` and `:.1f` are function parameters.
- **Cluster aggregation** (`Similarity`, `ml/model/similarity_search.py`).
  Rows with a null embedding are dropped. The ids are grouped by cluster label
  in row order and each group is comma-joined. The groups are left-merged back
  onto the rows. The labels DBSCAN or HDBSCAN would produce are an input, one
  per kept row.
- **Query and parameter builders** (`ListingDb`, `app/models/airbnb_listing_db.py`):
  `from_db_dict`, the `IN (...)` list and parameters of `get_by_ids`, the
  `INSERT OR REPLACE` statement and parameters of `save`, and `__str__`. A
  Python dict is an insertion-ordered list of pairs.

`Wrappers` holds `Option` and `Result`. `Text` holds the Python string
operations the four pieces share: `str` of an int, `sep.join`, `s.split(c)`,
`s.strip()`, single-character regex removal, and decimal parsing.

The model follows what the code does, including these behaviours a reader
might not expect:
- ids are not coerced to integers, and rows with unparsable ids are not dropped;
- count fields are mean-filled like every other numeric column, never zero-filled;
- an empty or unparsable price ends up null, because price parsing runs after
  the fill (`Dataset.MissingPriceStaysMissing`);
- cleaning is not idempotent: a required column dropped as mostly null makes a
  second cleaning fail (`Dataset.CleanTwiceFailsAfterDrop`);
- noise rows (label -1) form one ordinary group that lists every noise row
  (`Similarity.NoiseIsOneGroup`), not singletons.

## Model

| member | source | states |
|---|---|---|
| `Dataset.SelectColumns` | ml/data/make_dataset.py:38-40 | Succeeds iff all 24 schema columns are present. The result has exactly those names in listed order, each column taken unchanged from the input, and the same rows. Otherwise the error lists exactly the absent schema columns. |
| `Dataset.Project` | ml/data/make_dataset.py:40 | Indexing by a list of present names returns the named columns in request order. |
| `Dataset.SelectedDistinct` | ml/data/make_dataset.py:39 | A selected table has distinct column names. |
| `Dataset.SelectedPriceAt` | ml/data/make_dataset.py:39 | After selection, `price` is the third column of a table with distinct names. |
| `Dataset.KeptColumns` | ml/data/make_dataset.py:44-45 | A column survives `dropna` iff it is an input column whose non-null count is at least half the row count. |
| `Dataset.FlagPositionsFlagged` | ml/data/make_dataset.py:44-45 | Every listed position carries a set keep flag. |
| `Dataset.FlagPositionsIncreasing` | ml/data/make_dataset.py:44-45 | The listed positions are strictly increasing, so no position is listed twice. |
| `Dataset.FlagPositionsComplete` | ml/data/make_dataset.py:44-45 | Every position whose keep flag is set is listed. |
| `Dataset.KeptPositionsSound` | ml/data/make_dataset.py:44-45 | The kept positions are exactly the columns `dropna` keeps, each once, in increasing order. |
| `Dataset.KeptColumnsAt` | ml/data/make_dataset.py:44-45 | The k-th column `dropna` keeps is the input column at the k-th kept position, so survivors keep their input order and appear once each. |
| `Dataset.HandleMissingValues` | ml/data/make_dataset.py:42-55 | The row count is unchanged and no column is added: only columns are ever dropped. |
| `Dataset.HandleMissingValuesOrder` | ml/data/make_dataset.py:42-55 | The k-th output column is the k-th kept input column after filling, so the survivors keep their input order, once each. |
| `Dataset.KeepRule` | ml/data/make_dataset.py:44-53 | With distinct names, a column's name is in the output iff 2 × non-null count ≥ row count. A surviving column is the input column with its nulls filled. |
| `Dataset.ObjectFill` | ml/data/make_dataset.py:48-49 | A surviving string column has no nulls. Nulls become `''` and every other cell is unchanged. |
| `Dataset.NumericFill` | ml/data/make_dataset.py:52-53 | A surviving numeric column of a non-empty table has a mean: the sum of its values over their count. Nulls become that mean, every other cell is unchanged, and no null remains. |
| `Dataset.Mean` | ml/data/make_dataset.py:53 | A column mean is null iff the column has no non-null number. Otherwise the mean times that count is the sum of those numbers. |
| `Dataset.MeanWithinRange` | ml/data/make_dataset.py:53 | The fill value lies between the smallest and largest non-null value of the column. |
| `Dataset.NoNullsIdentity` | ml/data/make_dataset.py:42-55 | On a valid table without nulls, handle_missing_values keeps every column and fills nothing. |
| `Dataset.EmptyToNull` | ml/data/make_dataset.py:59 | A cell becomes null iff it is null or the empty string. Every other cell is unchanged. |
| `Dataset.StripSymbols` | ml/data/make_dataset.py:60 | Null and number cells are unchanged. A string loses every `$` and `,`, keeps the count of every other character, and its length drops by the number of `$` and `,` it held. |
| `Dataset.StripSymbolsConcat` | ml/data/make_dataset.py:60 | Stripping a concatenation strips each part, so the kept characters stay in their order. |
| `Dataset.StripSymbolsSingle` | ml/data/make_dataset.py:60 | A single character is dropped iff it is `$` or `,`. |
| `Dataset.ToNumeric` | ml/data/make_dataset.py:61 | The result is null or a number. Nulls and numbers are unchanged. A string becomes a number iff it parses as a decimal, and that number is its parsed value. |
| `Dataset.PriceCell` | ml/data/make_dataset.py:59-61 | The three price stages leave a null or a number. A null stays null and a number stays itself. A string is parsed after every `$` and `,` is removed, and becomes null if it does not parse. |
| `Dataset.CleanPriceColumn` | ml/data/make_dataset.py:57-62 | Rows and column names are unchanged. Without a `price` column the table is unchanged. Every other column is untouched, and each price cell is the price stages applied to it. |
| `Dataset.PriceExample` | ml/data/make_dataset.py:59-61 | `"$1,234.50"` cleans to 1234.5. |
| `Dataset.PriceUnparsable` | ml/data/make_dataset.py:61 | A price string that does not parse once `$` and `,` are removed becomes null. |
| `Dataset.EmptyPriceIsNull` | ml/data/make_dataset.py:59 | The empty price string becomes null. |
| `Dataset.CleanData` | ml/data/make_dataset.py:32-36 | Fails iff a schema column is missing, with the selection's error. On success the rows are kept, every column name is a schema name, and the result is the selected table put through handle_missing_values and then clean_price_column. |
| `Dataset.CleanedPrice` | ml/data/make_dataset.py:32-36 | The stage order: a surviving price column is first filled, and each filled cell then goes through the price stages. |
| `Dataset.MissingPriceStaysMissing` | ml/data/make_dataset.py:32-36 | In a string-typed price column, a null or unparsable price ends up null and is never mean-filled. The fill turns a null into `''`, which the price stages turn back into null. |
| `Dataset.NumericPriceIsFilled` | ml/data/make_dataset.py:32-36 | In a numeric price column, a null price ends up as the column mean. |
| `Dataset.SparsePriceDropped` | ml/data/make_dataset.py:34-35 | A mostly-null price column is gone before price cleaning. |
| `Dataset.CleanTwiceFailsAfterDrop` | ml/data/make_dataset.py:32-40 | If a schema column was dropped as mostly null, cleaning the cleaned table again fails selection. |
| `Dataset.CleanedHasNoNulls` | ml/data/make_dataset.py:42-55 | After cleaning a non-empty valid table, every column except `price` is free of nulls. |
| `Features.Trunc` | ml/features/build_features.py:21-23 | `int(x)` truncates toward zero: the result is within one of x, on the zero side. |
| `Features.CountText` | ml/features/build_features.py:21-23 | A count renders as `N/A` exactly when it is null. Otherwise it renders as the decimal text of its truncation. |
| `Features.TemplateShape` | ml/features/build_features.py:28-32 | The two template sentences begin with `T` and end with `". "`. |
| `Features.PriceShape` | ml/features/build_features.py:35-36 | The price sentence is empty for a null price. Otherwise it opens with "The price per night is $" and ends with `". "`. |
| `Features.RatingShape` | ml/features/build_features.py:39-42 | The rating sentence is empty for a null rating. Otherwise it opens with "The property has a review rating of " and ends with `/5`. |
| `Features.CreateOverview` | ml/features/build_features.py:44 | The overview has no leading or trailing whitespace. |
| `Features.StripSentences` | ml/features/build_features.py:44 | Stripping text shaped like the overview removes only the final space, and only when no rating sentence closes it. |
| `Features.OverviewExact` | ml/features/build_features.py:28-44 | The overview is the template, the optional price sentence and the optional rating sentence, concatenated. Only a trailing space is cut when the rating is null. |
| `Features.OverviewStartsWithTemplate` | ml/features/build_features.py:28-32 | The template sentences, with the fields in their fixed order, always open the overview. |
| `Features.PriceLeadAfter` | ml/features/build_features.py:35-42 | Right after the template, the price lead occurs iff a price sentence was added. A rating sentence in that place differs from it. |
| `Features.RatingTailAfter` | ml/features/build_features.py:39-44 | After the template and an optional price sentence, the stripped text ends with `/5` iff a rating sentence was added; otherwise it ends with a full stop. |
| `Features.OverviewPriceIff` | ml/features/build_features.py:35-36 | The price sentence follows the template iff the price is non-null. |
| `Features.OverviewRatingIff` | ml/features/build_features.py:39-42 | The overview ends with `/5` iff the rating is non-null. |
| `Features.OverviewPriceBeforeRating` | ml/features/build_features.py:34-42 | With both present, the price sentence comes first and the rating sentence closes the overview. |
| `Features.Tier` | ml/features/build_features.py:60-65 | The tier is 0 iff the score is at least 4.5 and 2 iff it is not at least 3.5. A null score falls in tier 2. |
| `Features.TierMonotone` | ml/features/build_features.py:59-97 | A higher score never lands in a worse tier, and null is the worst. |
| `Features.BulletIsTier` | ml/features/build_features.py:60-65 | A category's if/elif/else appends the sentence of the score's tier. |
| `Features.OutlineByTier` | ml/features/build_features.py:56-104 | The outline is the header, then one sentence per category (cleanliness, check-in, communication, location, value) chosen by tier, then the closing. |
| `Features.OutlineStartsWithDescription` | ml/features/build_features.py:54-57 | The outline opens with "Property Description: " + d + " Review Overview:". d is the description, or "No detailed description available." when it is null. |
| `Features.EvaluateListing` | ml/features/build_features.py:46-106 | The outline ends with the "meets or exceeds expectations" closing iff all six scores, including the overall rating, reach 4.5. Otherwise it ends with the "some areas" closing. |
| `Features.MeetsClosingImpliesTopTier` | ml/features/build_features.py:59-104 | The top closing implies that all five bullets are tier-one sentences. |
| `Features.HighLevelOverview` | ml/features/build_features.py:108-117 | Its length is the head plus the description and the neighborhood sentence, each counted only when present. |
| `Features.HighLevelParts` | ml/features/build_features.py:108-117 | "This is a {type}." opens the result. The description follows iff present, and the neighborhood sentence ends it iff present. With neither, the result is the head alone. |
| `Similarity.WithinEpsIff` | ml/model/similarity_search.py:28-31 | With `eps = 1 - threshold`, a pair is within cosine distance eps iff its cosine similarity reaches the threshold. |
| `Similarity.NonPcaEps` | ml/model/similarity_search.py:52 | The non-PCA path uses eps 0.07 (threshold 0.93) and min_samples 2. |
| `Similarity.EmbeddedPositions` | ml/model/similarity_search.py:39 | The positions of the rows with an embedding: in range, strictly increasing, and every such row's position is among them. |
| `Similarity.ValidRows` | ml/model/similarity_search.py:39 | The kept rows are the input rows with an embedding, in input order and once each: the k-th kept row is the input row at the k-th embedded position. |
| `Similarity.ValidRowsUnique` | ml/model/similarity_search.py:39 | Filtering keeps ids unique. |
| `Similarity.Positions` | ml/model/similarity_search.py:56 | The positions of a label are strictly increasing and carry that label, and every row with that label is among them. |
| `Similarity.GroupIds` | ml/model/similarity_search.py:56 | A label's list has one id per row carrying the label. Every listed id belongs to a kept row with that label, and every such row's id is listed. |
| `Similarity.GroupIdsMembers` | ml/model/similarity_search.py:56 | An id is in a label's group iff some kept row with that label has that id. |
| `Similarity.GroupInRowOrder` | ml/model/similarity_search.py:39-56 | A label's list follows input row order: its k-th id is that of the input row at the k-th position carrying the label, and those input positions increase. |
| `Similarity.DistinctLabels` | ml/model/similarity_search.py:56 | One group key per distinct label: no repeats, and every label occurs. |
| `Similarity.ClusterGroups` | ml/model/similarity_search.py:56-59 | The grouped frame has distinct keys and one group per label that occurs. Each group's text is the comma-join of its ids. |
| `Similarity.IdTexts` | ml/model/similarity_search.py:59 | `map(str, ids)` renders each id in place. No text holds a comma, and distinct ids give distinct texts. |
| `Similarity.MatchingUnique` | ml/model/similarity_search.py:61 | With distinct keys, a present key matches exactly one group. |
| `Similarity.LeftMerge` | ml/model/similarity_search.py:61 | A left merge yields at least one row per left row and starts with the first left row and its label. When no key matches more than one group, it yields exactly one row per left row. |
| `Similarity.LeftMergeExact` | ml/model/similarity_search.py:61 | When every key has its group, the left merge yields one row per left row, in order. Each row keeps its label and gets that label's group text. |
| `Similarity.MergedGroups` | ml/model/similarity_search.py:56-61 | Merging the grouped frame back gives each kept row its own label's membership text. |
| `Similarity.PipelineClustering` | ml/model/similarity_search.py:35-65 | One output row per kept row, in order. The k-th output row is the input row at the k-th embedded position, unchanged. Its label is attached, and its membership text is that label's joined ids. |
| `Similarity.ListingsSplit` | ml/model/similarity_search.py:56-59 | Splitting a membership text on `,` recovers the group's id texts, in row order. |
| `Similarity.OwnIdListed` | ml/model/similarity_search.py:56-61 | Every output row's membership list contains its own id. |
| `Similarity.SameLabelSameText` | ml/model/similarity_search.py:56-61 | Rows with the same label receive identical membership texts. |
| `Similarity.NoiseIsOneGroup` | ml/model/similarity_search.py:56 | All noise rows (label -1) share one list, which names every noise row. |
| `Similarity.ListedMeansLabelled` | ml/model/similarity_search.py:56-61 | An id listed for a label belongs to a kept row with that label. |
| `Similarity.ExcludedNotGrouped` | ml/model/similarity_search.py:39-56 | With unique ids, the id of a row without an embedding is in no label's group. |
| `Similarity.ExcludedTextAbsent` | ml/model/similarity_search.py:39-59 | With unique ids, the id text of a row without an embedding is not among the split entries of any membership text. |
| `Similarity.MembershipSymmetric` | ml/model/similarity_search.py:56-61 | With unique ids, if A is listed for B then B is listed for A. |
| `Similarity.ExcludedNeverListed` | ml/model/similarity_search.py:39-61 | With unique ids, a row without an embedding is in no output row, and its id text is in no membership list once that list is split on `,`. |
| `ListingDb.Get` | app/models/airbnb_listing_db.py:19 | A key is found iff the dict has it, and the value found is stored under that key. |
| `ListingDb.Remove` | app/models/airbnb_listing_db.py:19 | Popping a key removes it, leaves every other lookup unchanged, adds no pairs and keeps keys distinct. |
| `ListingDb.RemoveAbsent` | app/models/airbnb_listing_db.py:19 | Popping a key the dict does not hold leaves the dict unchanged. |
| `ListingDb.RemoveAt` | app/models/airbnb_listing_db.py:19 | With distinct keys, popping the key at position i cuts out exactly that pair; the other pairs keep their insertion order. |
| `ListingDb.RemoveOrder` | app/models/airbnb_listing_db.py:19 | With distinct keys, popping a present key leaves the dict minus that one pair, in the original order. |
| `ListingDb.Put` | app/models/airbnb_listing_db.py:68 | Storing a key sets its value and leaves every other lookup unchanged. An existing key keeps its place; a new key is appended. |
| `ListingDb.PutAll` | app/models/airbnb_listing_db.py:68 | After unpacking e into d, every key of e is present and every key outside e looks up what it did in d. |
| `ListingDb.PutAllGet` | app/models/airbnb_listing_db.py:68 | After unpacking a dict into another, a key of the unpacked dict has that dict's value, and any other key keeps its old value. |
| `ListingDb.PutAllDisjoint` | app/models/airbnb_listing_db.py:68 | Unpacking a dict whose keys are all new appends its pairs in order. |
| `ListingDb.FromDbDict` | app/models/airbnb_listing_db.py:17-20 | Raises KeyError('id') iff the row lacks `id`. Otherwise the listing's id is the row's `id`, and its properties are the row without `id`, with every other lookup unchanged and keys distinct. For a row with distinct keys, the properties are the row with its `id` pair cut out, the rest in the row's order. |
| `ListingDb.IdPlaceholders` | app/models/airbnb_listing_db.py:40 | There are exactly n placeholders, and the i-th is `:id` followed by the decimal text of i. They are pairwise distinct, and none holds a comma or outer whitespace. |
| `ListingDb.IdPairsDistinct` | app/models/airbnb_listing_db.py:42 | The generated parameter names `id0, id1, ...` never collide. |
| `ListingDb.GetByIds` | app/models/airbnb_listing_db.py:36-43 | The parameters hold exactly one pair per id, `id{i}` ↦ `ids[i]`, in order and with distinct keys. |
| `ListingDb.PlaceholdersSplit` | app/models/airbnb_listing_db.py:40 | Splitting the `", "`-joined placeholders on `,` and stripping gives back the n placeholders in order. |
| `ListingDb.GetByIdsBinds` | app/models/airbnb_listing_db.py:40-42 | For at least one id, the statement opens with the SELECT lead. The k-th entry of its IN list is `:` plus the k-th parameter name, with as many entries as parameters. |
| `ListingDb.Save` | app/models/airbnb_listing_db.py:57-69 | The parameters bind `id` to the listing id, unless a property is itself named `id`. They bind every other name to its property value. |
| `ListingDb.SaveParamsGet` | app/models/airbnb_listing_db.py:68 | In `{'id': id, **properties}` a property shadows `id` only when it is itself called `id`. |
| `ListingDb.SaveParamsShape` | app/models/airbnb_listing_db.py:68 | For a constructed listing the parameters are `id` followed by the properties, in insertion order. |
| `ListingDb.SaveSqlParts` | app/models/airbnb_listing_db.py:61-66 | The statement text is the INSERT head, the column list, the VALUES head, the VALUES list and the tail, each cut back out at fixed offsets. |
| `ListingDb.ListsBindHold` | app/models/airbnb_listing_db.py:61-66 | With plain keys, the column list splits to `id` and then the keys, and the VALUES entry at each place is `:` plus the column there. |
| `ListingDb.SaveColumnsBind` | app/models/airbnb_listing_db.py:61-66 | Cut out of the saved statement text, the column list and the VALUES list have one entry per key plus one. The first entries are `id` and `:id`, and the k-th VALUES entry is `:` plus the k-th column. |
| `ListingDb.FromDbDictThenSave` | app/models/airbnb_listing_db.py:18-68 | A row read back with from_db_dict and saved binds exactly the row's values: every name looks up the same value as in the row. |
| `ListingDb.ToString` | app/models/airbnb_listing_db.py:71-72 | The text opens with `Listing(id=` and closes with `)`. |
| `ListingDb.ToStringNoProperties` | app/models/airbnb_listing_db.py:72 | A listing without properties prints `Listing(id=X, )`. |
| `ListingDb.ToStringItems` | app/models/airbnb_listing_db.py:72 | For a listing with at least one property, where every `k=v` item is free of commas and of outer whitespace: after the id, the comma-separated entries are `k=v` for each property, in insertion order. |
| `Text.IntToStringInjective` | ml/model/similarity_search.py:59 | Distinct ints render to distinct texts, so a listed id text names exactly one id. |
| `Text.IntToStringAvoids` | ml/model/similarity_search.py:59 | The text of an int holds no comma. |
| `Text.NatToStringRoundTrip` | app/models/airbnb_listing_db.py:40 | Reading back the decimal text of a natural number gives the number. |
| `Text.SplitJoin` | ml/model/similarity_search.py:59 | Joining comma-free items with `,` and splitting on `,` gives back the items. |
| `Text.SplitCommaSpace` | app/models/airbnb_listing_db.py:40 | Splitting a `", "`-join on `,` and stripping the parts gives back the items, when they hold no comma and no outer whitespace. |
| `Text.StripExact` | ml/features/build_features.py:44 | Stripping whitespace around text with no outer whitespace returns that text. |
| `Text.RemoveChar` | ml/data/make_dataset.py:60 | Removing a character leaves no copy of it and keeps every other character. The text is unchanged when the character is absent. |
| `Text.RemoveCharCount` | ml/data/make_dataset.py:60 | Removal shortens the text by the number of copies of the character and keeps the count of every other character. |
| `Text.RemoveCharConcat` | ml/data/make_dataset.py:60 | Removal works piecewise over a concatenation, so the kept characters stay in their order. |
| `Text.ParseDecimal` | ml/data/make_dataset.py:61 | A parsed text is non-empty and made of digits, `.` and signs. Without a leading `-` the value is non-negative. |
| `Text.UnsignedGrammar` | ml/data/make_dataset.py:61 | The unsigned parser succeeds iff the text is digits, optionally with one point, and has at least one digit. |
| `Text.DecimalGrammar` | ml/data/make_dataset.py:61 | A text parses iff it is such an unsigned text, optionally preceded by one `+` or `-`. Every other text becomes null. |
| `Text.TwoPointsRejected` | ml/data/make_dataset.py:61 | A text with two decimal points does not parse. |
| `Text.ParseFixedPoint` | ml/data/make_dataset.py:61 | `w.f`, `+w.f` and `-w.f` parse to the fixed-point value of w and f, negated for `-`. |
| `Text.ParseNatString` | ml/data/make_dataset.py:61 | The decimal text of a natural number parses to that number. |

## Left out

- Embedding generation (SentenceTransformer, device probing, batch encoding),
  `weighted_average_embedding`, L2 normalisation, PCA, DBSCAN and HDBSCAN
  internals. These are floating-point library numerics, so the cluster
  labels are an input.
- The HDBSCAN path's parameters (min_cluster_size 2, min_samples 1). Only the
  labels it returns reach the modelled part.
- Float-to-string formatting (`:.2f`, `:.1f`, `str` of a float value):
  parameters of the builders and of `__str__`.
- Floating-point arithmetic: means and eps are exact reals. In float64,
  `1 - 0.93` is 0.06999999999999995 rather than 0.07.
- Python ints are unbounded and so are the model's. pandas int64 overflow is
  not modelled.
- `Text.ParseDecimal`: accepts only `[sign] [digits] [. [digits]]`, with at
  least one digit. `pd.to_numeric` also accepts exponents, `inf`/`nan` and
  surrounding whitespace, and those forms become null in the model.
- `Text.Strip`: strips ASCII whitespace and the separators `\x1c`-`\x1f`. The
  other Unicode whitespace Python's `str.strip` removes is not modelled.
- Dtypes other than object and float64/int64 (bool, datetime, category). Such
  columns survive or drop by the same rule but are filled by neither step, and
  they are not modelled.
- Duplicate column names in the input table. `df[list]` would then return
  every copy, while the model takes the first.
- `dropna(thresh=...)` receives a float in the source. The model uses the
  comparison count ≥ 0.5 × rows, which is what pandas evaluates.
- The dtype pandas assigns to `price` after `to_numeric`. The column keeps its
  tag and its cells become numbers or nulls.
- In `evaluate_listing` a description is present when not null. In
  `construct_high_level_overview` it is present when it is a string. Both are
  `Option<string>`, so a non-null non-string description is not modelled.
- Non-text fields that f-strings render (`property_type`, `room_type`, the
  neighbourhood and the bathroom text) are given as already-rendered text. A
  NaN there would render as `nan`.
- Ids that are not Python ints (a float id column renders `1.0`).
- groupby's sorting of the grouped frame by label. It does not change the
  left-merged output, whose order is the left frame's.
- Merge suffixes (`_x`/`_y`) when the input already has a
  `listings_in_cluster` column.
- The length check pandas applies when the label array is assigned. The model
  requires one label per kept row, which the clusterer returns whenever it
  runs.
- `Similarity.PipelineClustering` with no embedded rows: `np.stack` of an
  empty array raises ValueError in the source, while the model returns an
  empty table.
- `get_by_id` and `get_all`: fixed query texts followed by a database call.
- All database I/O (`AirbnbDatabase`, `fetch_data`, `execute_query`) and the
  mapping of fetched rows to listings.
- `from_db_dict` mutating the caller's dict through `pop`.
- `save` with no properties produces `(id, )` and `(:id, )`, which SQLite
  rejects as a syntax error. `get_by_ids` with no ids produces `IN ()`, which
  SQLite accepts as an empty list. The model builds the text and does not
  parse SQL.
- `ListingDb.SaveColumnsBind`: stated for keys without a comma or outer
  whitespace. Other keys would make the statement text ambiguous when split.
- `ListingDb.ToStringItems`: stated for listings with at least one property
  and with every `k=v` item free of commas and outer whitespace. Values such
  as a description or an amenities list often hold commas, and then the
  printed text cannot be split back into items. `ListingDb.ToString` and
  `ListingDb.ToStringNoProperties` cover the lead, the closing `)` and the
  empty case for every listing.
- The CLI `main` of make_dataset.py, the app's API, configuration, logging,
  `print(head(3))`, and `app/core/database/*` (sqlite I/O, CSV loading,
  schema strings). app/models/prediction.py is not part of this model.
