# bible-clusterer: the discrete core in Dafny

This project models the parts of the bible-clusterer service that are plain
sequence and string logic, and proves what they promise:

- `GNTClusterer` (`clusterer.dfy`, module `GntClusterer`):
  - the stop-word filter `clean`, as two nested loops;
  - the clamps of `reduce` and `clusterize` on the number of PCA
    components and K-means clusters;
  - the short-circuit of `pipeline` for corpora of fewer than three texts;
  - the loop that groups the rows by ground-truth value into parallel
    arrays.

  TF-IDF, PCA and K-means are parameters: a `Numerics` value holds three
  functions, and `Numerics.Valid` fixes only the shapes that scikit-learn
  returns.
- `MongoConnector.get_book_classes` and `get_book_class`, which are the same
  in the clusterer and the GNT back ends (`book_classes.dfy`). The OT and NT
  collections are passed in as their documents.
- `MongoConnector.connect` of the clusterer back end (`clusterer_database.dfy`).
  It is a class whose `mongoUri` field is filled in when it is empty.
- `MongoConnector.connect` of the GNT back end (`gnt_database.dfy`). It always
  writes the port, and it fails when no user is set.
- The connection string layout and a reader for it (`mongo_uri.dfy`). The
  reader is the partner of both builders: each back end proves that reading
  its URI back gives the settings it was built from.
- `DataBaseFiller` of the GNT and the LXX back ends (`database_filler.dfy`),
  whose modelled code is identical:
  - `load_json`, as a class method that appends to `texts`; the folder
    listing and the file reads become a sequence of files;
  - `write_booklist`;
  - the fixed `book_classes` table.
- Python's `str.split` with a one-character separator, `" ".join`, `strip`,
  `str(int)` and `f"{None}"` (`py_strings.dfy`), and `Option`/`Result`
  (`wrappers.dfy`).

The book-class table lists no Johannine letter (`1Jn`, `2Jn`, `3Jn`).
Looking one up adds nothing (`DatabaseFiller.JohannineLettersUnclassified`),
and a book list made of such letters alone has no classes at all
(`DatabaseFiller.JohannineLettersOnly`). The table lists no book twice, so
when the ground truth is the lookup of the corpus's books, a corpus holding
a Johannine letter gets a ground-truth list shorter than the corpus.
`GntClusterer.Pipeline` then gives, for a cluster count of at least 1 and
one name per text:

- `Degenerate` for fewer than three texts, whatever the ground truth;
- `Failed(MissingGroundTruth)` for three or more texts that are all
  Johannine letters, because their ground truth is the empty, falsy list;
- `Failed(LengthMismatch)` for three or more texts of which at least one is
  a classified book.

## Model

| member | source | states |
|---|---|---|
| GntClusterer.Kept | app/gnt_nlp_utils/gnt_nlp_utils/clusterer.py:30-32 | the words kept of a text are never more than its words |
| GntClusterer.CleanText | app/gnt_nlp_utils/gnt_nlp_utils/clusterer.py:29-33 | a cleaned text neither starts nor ends with whitespace |
| GntClusterer.Clean | app/gnt_nlp_utils/gnt_nlp_utils/clusterer.py:27-34 | one cleaned text per input text; text `i` of the result is `CleanText` of input text `i` alone |
| GntClusterer.CleanDocument | app/gnt_nlp_utils/gnt_nlp_utils/clusterer.py:29-33 | the inner loop builds a space plus each non-stop word, and stripping that gives `strip(" ".join(kept words))` |
| GntClusterer.KeptMembers | app/gnt_nlp_utils/gnt_nlp_utils/clusterer.py:30-32 | the kept words are exactly the words of the text that are not stop words |
| GntClusterer.KeptSnoc | app/gnt_nlp_utils/gnt_nlp_utils/clusterer.py:30-32 | each further word is appended if and only if it is not a stop word, so order is kept |
| GntClusterer.CleanTextTrimmed | app/gnt_nlp_utils/gnt_nlp_utils/clusterer.py:29-33 | for texts whose only whitespace is `" "`: the cleaned text is the kept words, without the empty words at both ends, joined by single spaces; no word of it is a stop word or holds whitespace |
| GntClusterer.CleanTextIdempotent | app/gnt_nlp_utils/gnt_nlp_utils/clusterer.py:29-33 | for texts whose only whitespace is `" "`, cleaning twice with the same stop words equals cleaning once |
| GntClusterer.CleanWords | app/gnt_nlp_utils/gnt_nlp_utils/clusterer.py:29-33 | a text of non-empty, whitespace-free words joined by single spaces is cleaned to the non-stop words joined by single spaces |
| GntClusterer.CleanDropsMiddle | nlp-utils/tests/test_nlp_utils.py:23-27 | in a three-word text whose first and last words are kept and whose middle word is a stop word, that word is dropped, as in `"titi is tall"` becoming `"titi tall"` |
| GntClusterer.Reduce | app/gnt_nlp_utils/gnt_nlp_utils/clusterer.py:66-68 | one row per input row; every row has `min(dimension, rows)` columns, so never more than either |
| GntClusterer.DisplayHasThreeColumns | app/gnt_nlp_utils/gnt_nlp_utils/clusterer.py:124-126 | with at least three rows, the display reduction has exactly the three columns that are named x, y and z |
| GntClusterer.Clusterize | app/gnt_nlp_utils/gnt_nlp_utils/clusterer.py:84-94 | fails exactly when `min(n_cluster, rows) < 1` or a column length differs from the row count. Otherwise: the label column is `name`; each row gets a cluster below both bounds; the ground-truth column is present if and only if `ground_truth` is truthy, and then it is that list |
| GntClusterer.NameColumns | app/gnt_nlp_utils/gnt_nlp_utils/clusterer.py:126 | the three named columns hold row `i` of the frame at position `i` |
| GntClusterer.Unique | app/gnt_nlp_utils/gnt_nlp_utils/clusterer.py:129 | `pd.unique` has the same values as its input and no value twice |
| GntClusterer.UniqueFirstSeen | app/gnt_nlp_utils/gnt_nlp_utils/clusterer.py:129 | `pd.unique` lists the values in the order of their first occurrence |
| GntClusterer.Where | app/gnt_nlp_utils/gnt_nlp_utils/clusterer.py:130-131 | the mask `ground_truth == value` selects increasing rows having the value |
| GntClusterer.WhereMembers | app/gnt_nlp_utils/gnt_nlp_utils/clusterer.py:130-131 | a row is selected if and only if it has the value |
| GntClusterer.WhereCount | app/gnt_nlp_utils/gnt_nlp_utils/clusterer.py:130-131 | the mask selects as many rows as the value occurs |
| GntClusterer.WhereExact | app/gnt_nlp_utils/gnt_nlp_utils/clusterer.py:130-131 | both of the above together |
| GntClusterer.GroupRecord | app/gnt_nlp_utils/gnt_nlp_utils/clusterer.py:130-139 | the x, y, z, clusters, labels and ground-truth arrays of a record are all as long as the row mask of its value |
| GntClusterer.Assemble | app/gnt_nlp_utils/gnt_nlp_utils/clusterer.py:128-141 | there is one record per distinct ground-truth value |
| GntClusterer.GroupByGroundTruth | app/gnt_nlp_utils/gnt_nlp_utils/clusterer.py:128-141 | the loop builds one record per `pd.unique` value, in that order, each holding every column restricted to that value's rows |
| GntClusterer.RecordValue | app/gnt_nlp_utils/gnt_nlp_utils/clusterer.py:129-139 | record `k`'s x, y, z, clusters, labels and ground-truth arrays are equally long, as long as the number of rows with the `k`-th value (at least one); its ground-truth array holds that value only |
| GntClusterer.AssembleGroups | app/gnt_nlp_utils/gnt_nlp_utils/clusterer.py:128-141 | there is one non-empty record per distinct ground-truth value, and record `k` holds the `k`-th first-seen value only |
| GntClusterer.RecordRows | app/gnt_nlp_utils/gnt_nlp_utils/clusterer.py:130-138 | record `k` is taken from the rows having its value, exactly those and in increasing order; for every `p`, entry `p` of its label, cluster and coordinate arrays is that column's entry in the `p`-th of those rows |
| GntClusterer.GroupsPermute | app/gnt_nlp_utils/gnt_nlp_utils/clusterer.py:128-141 | concatenating a column's pieces, value by value, rearranges the column: no entry lost or duplicated |
| GntClusterer.AssemblePartition | app/gnt_nlp_utils/gnt_nlp_utils/clusterer.py:128-141 | the records partition the rows: their labels together are the frame's labels rearranged, and their row numbers together are `0 .. n-1` rearranged |
| GntClusterer.Features | app/gnt_nlp_utils/gnt_nlp_utils/clusterer.py:113-119 | the cleaned, vectorized and reduced corpus has one row per text |
| GntClusterer.Display3D | app/gnt_nlp_utils/gnt_nlp_utils/clusterer.py:124-126 | the x, y and z columns have one entry per row |
| GntClusterer.Pipeline | app/gnt_nlp_utils/gnt_nlp_utils/clusterer.py:105-142 | fewer than three texts, and only then, gives the empty single result whatever the other arguments. Otherwise it fails exactly when the cluster count is below 1, the names or the ground truth differ in length from the corpus, or the ground truth is falsy, each with its own error. Else it returns the grouping of the K-means frame over the display coordinates |
| BookClasses.Fetched | app/clusterer_core/clusterer_core/database.py:112-113 | `to_list(length=100)` returns the first `min(n, 100)` documents of a collection of `n`: the whole collection when it is no longer, and exactly its first 100 otherwise |
| BookClasses.AllClasses | app/clusterer_core/clusterer_core/database.py:108-115 | the groups are the fetched OT documents followed by the fetched NT documents, at most 200 in all (written identically at gnt_core/database.py:104-111) |
| BookClasses.GroupsContaining | app/clusterer_core/clusterer_core/database.py:124-126 | a book gets at most one name per group |
| BookClasses.ClassesOf | app/clusterer_core/clusterer_core/database.py:122-127 | the lookup has at most one name per book and group |
| BookClasses.OtBeforeNt | app/clusterer_core/clusterer_core/database.py:112-115 | a book's OT groups come before its NT groups, because `get_book_classes` concatenates OT then NT (written identically at gnt_core/database.py:108-111) |
| BookClasses.GroupsContainingAppend | app/clusterer_core/clusterer_core/database.py:114 | over a concatenation of group lists, a book's group names are those of the first list followed by those of the second |
| BookClasses.AppendGroupsOf | app/clusterer_core/clusterer_core/database.py:124-126 | the inner loop appends the names of the groups listing the book, in group order |
| BookClasses.GetBookClass | app/clusterer_core/clusterer_core/database.py:117-127 | the result is `ClassesOf(books, OT + NT)`: for each book in turn, the names of the groups listing it, in group order (written identically at gnt_core/database.py:113-123) |
| BookClasses.GroupsContainingCount | app/clusterer_core/clusterer_core/database.py:124-126 | a book gets one entry per group that lists it |
| BookClasses.GroupsContainingNames | app/clusterer_core/clusterer_core/database.py:124-126 | a name is among a book's entries if and only if some group with that name lists the book |
| BookClasses.ClassesOfAppend | app/clusterer_core/clusterer_core/database.py:123-127 | the lookup is book-major: books `a + b` give the entries of `a` followed by those of `b` |
| BookClasses.ClassesOfLength | app/clusterer_core/clusterer_core/database.py:122-127 | the result length is the sum over the books of the number of groups listing each |
| BookClasses.UnlistedBook | app/gnt_core/gnt_core/database.py:119-122 | a further book adds nothing to the lookup if and only if no group lists it |
| BookClasses.TwiceListedBook | app/gnt_core/gnt_core/database.py:119-122 | a book listed by exactly two groups adds both names, in group order |
| BookClasses.ClassesAligned | app/clusterer_core/clusterer_core/database.py:123-126 | when every book is in exactly one group, the result is as long as the books and entry `i` is book `i`'s group |
| MongoUri.AssembleFrame | app/clusterer_core/clusterer_core/database.py:59 | a URI laid out by the f-string starts with `mongodb://` and ends with `?authSource=admin`, with something in between |
| MongoUri.ParseAssembleUri | app/clusterer_core/clusterer_core/database.py:55-59 | a URI laid out as `mongodb://[user:password@]host[:port]/database?authSource=admin` reads back as its credentials, host, port and database |
| ClustererDatabase.BuildUri | app/clusterer_core/clusterer_core/database.py:55-59 | the built URI starts with `mongodb://` and ends with `?authSource=admin`, with something in between |
| ClustererDatabase.MongoConnector.constructor | app/clusterer_core/clusterer_core/database.py:18-39 | the settings are stored as given; the defaults are those of the Python constructor |
| ClustererDatabase.MongoConnector.Connect | app/clusterer_core/clusterer_core/database.py:55-62 | an empty `mongo_uri` is replaced by the built URI, a configured one is kept; the client gets the stored URI, never empty; no other setting changes |
| ClustererDatabase.BuildUriReadsBack | app/clusterer_core/clusterer_core/database.py:55-59 | the built URI reads back as the host and database, the credentials if and only if the user is truthy, and the port if and only if it is not 0 |
| ClustererDatabase.BuildUriCredentials | app/clusterer_core/clusterer_core/database.py:55 | the built URI has a user part (an `@`) if and only if the user is truthy |
| GntDatabase.ConnectionUri | app/gnt_core/gnt_core/database.py:53-55 | building the URI fails if and only if the user is falsy; otherwise it is the corrected URI |
| GntDatabase.MongoConnector.constructor | app/gnt_core/gnt_core/database.py:18-37 | the settings are stored as given; the defaults are those of the Python constructor |
| GntDatabase.MongoConnector.Connect | app/gnt_core/gnt_core/database.py:53-58 | `connect` hands the client `ConnectionUri` of the settings, or fails before opening one |
| GntDatabase.ConnectionUriReadsBack | app/gnt_core/gnt_core/database.py:53-55 | `connect` fails if and only if the user is falsy; otherwise its URI reads back as the credentials, host, port (always present) and database |
| GntDatabase.FillerConnect | app/gnt_core/gnt_core/database_filler.py:28-29 | a connector built as `DataBaseFiller` builds it, without a user, always fails to connect |
| GntDatabase.CorrectedConnectionUriReadsBack | app/gnt_core/gnt_core/database.py:53-55 | the corrected URI agrees with the written one whenever a user is set, and reads back as the settings with or without one |
| DatabaseFiller.BookName | app/gnt_core/gnt_core/database_filler.py:50 | there is no book name exactly when the file name has no `-` |
| DatabaseFiller.BookNameFails | app/gnt_core/gnt_core/database_filler.py:50 | `split("-")[1]` fails if and only if the file name has no `-`, and a book name found holds no `-` |
| DatabaseFiller.BookNameOf | app/gnt_core/gnt_core/database_filler.py:50 | the book name is the second `-`-separated field, as in `61-Mt-morphgnt.txt` |
| DatabaseFiller.LastToken | app/gnt_core/gnt_core/database_filler.py:55 | the last token holds no space |
| DatabaseFiller.LastTokenEnds | app/gnt_core/gnt_core/database_filler.py:55 | `line.split(" ")[-1]` holds no space and is the end of the line after its last space, or the whole line |
| DatabaseFiller.NonEmpty | app/gnt_core/gnt_core/database_filler.py:54 | the lines kept are exactly the non-empty ones |
| DatabaseFiller.ExtractText | app/gnt_core/gnt_core/database_filler.py:52-56 | the text of a file's lines is empty or ends with a space |
| DatabaseFiller.Text | app/gnt_core/gnt_core/database_filler.py:51-56 | the text of a file's content, split at `\n`, is empty or ends with a space |
| DatabaseFiller.ExtractTextJoin | app/gnt_core/gnt_core/database_filler.py:51-56 | the text is the last tokens of the non-empty lines, in order, joined by spaces with one trailing space |
| DatabaseFiller.ExtractTextWords | app/gnt_core/gnt_core/database_filler.py:53-56 | splitting the text on spaces gives back those tokens and one final empty piece |
| DatabaseFiller.ExtractTextSpaces | app/gnt_core/gnt_core/database_filler.py:54-56 | the text has one space per non-empty line, and is empty if and only if every line is |
| DatabaseFiller.ReadText | app/gnt_core/gnt_core/database_filler.py:51-56 | the inner loop computes `Text(content)` (written identically at lxx_core/database_filler.py:50-55) |
| DatabaseFiller.Record | app/gnt_core/gnt_core/database_filler.py:50-57 | a file has no record, because `load_json` raises on it, exactly when its name has no `-` |
| DatabaseFiller.Records | app/gnt_core/gnt_core/database_filler.py:49-57 | one entry per file; entry `k` is missing, because `load_json` raises on file `k`, exactly when that file's name has no `-`, and otherwise holds that file's text |
| DatabaseFiller.UpToNone | app/gnt_core/gnt_core/database_filler.py:49-57 | the values kept before the first raising file are never more than the entries |
| DatabaseFiller.UpToNoneAll | app/gnt_core/gnt_core/database_filler.py:49-57 | when no file raises, every value is kept, in order |
| DatabaseFiller.UpToNoneAppend | app/gnt_core/gnt_core/database_filler.py:49-57 | after a prefix in which nothing raises, the values of the rest follow those of the prefix |
| DatabaseFiller.Loaded | app/gnt_core/gnt_core/database_filler.py:49-57 | `load_json` adds at most one record per file |
| DatabaseFiller.LoadedAll | app/gnt_core/gnt_core/database_filler.py:49-57 | when every file name has a `-`: one record per file, in file order, with its book name and text |
| DatabaseFiller.LoadedAppend | app/gnt_core/gnt_core/database_filler.py:49-57 | after files that all have a book name, loading continues with the rest |
| DatabaseFiller.LoadedStops | app/gnt_core/gnt_core/database_filler.py:50 | loading stops at the first file name without `-` |
| DatabaseFiller.LoadedStep | app/gnt_core/gnt_core/database_filler.py:50-57 | a file with a book name adds one record after those of the files before it |
| DatabaseFiller.DataBaseFiller.constructor | app/gnt_core/gnt_core/database_filler.py:30 | the filler starts with no records |
| DatabaseFiller.DataBaseFiller.LoadJson | app/gnt_core/gnt_core/database_filler.py:49-57 | appends the files' records to `texts`, keeping the earlier ones; reports failure if and only if some file name has no `-`, after keeping the records of the files before it (written identically at lxx_core/database_filler.py:48-56) |
| DatabaseFiller.DataBaseFiller.WriteBooklist | app/gnt_core/gnt_core/database_filler.py:63-64 | one book name per record, in record order (written identically at lxx_core/database_filler.py:62-63) |
| DatabaseFiller.BookClassTableShape | app/gnt_core/gnt_core/database_filler.py:71-79 | the table has 5 groups and 24 books, and no book is listed twice (the same table at lxx_core/database_filler.py:70-78) |
| DatabaseFiller.DisjointHolder | app/gnt_core/gnt_core/database_filler.py:71-79 | in a table that lists no book twice, a listed book is held by its group alone |
| DatabaseFiller.BookClassTableAligned | app/gnt_core/gnt_core/database_filler.py:71-79 | under the table, looking up books it lists gives a result aligned with the books: entry `k` is book `k`'s group |
| DatabaseFiller.JohannineLettersUnclassified | app/gnt_core/gnt_core/database_filler.py:71-79 | no Johannine letter (`1Jn`, `2Jn`, `3Jn`) is in a group of the table, so looking one up adds nothing |
| DatabaseFiller.JohannineLettersOnly | app/gnt_core/gnt_core/database_filler.py:71-79 | a book list made of Johannine letters only has no classes at all |
| PyStrings.StripTrims | app/gnt_nlp_utils/gnt_nlp_utils/clusterer.py:33 | `strip` keeps a slice of its input whose first and last characters are not whitespace, and everything it removes before and after that slice is whitespace; it combines `StripKeeps`, `StripEnds`, `StripRemovesLeading` and `StripRemovesTrailing` |
| PyStrings.StripKeeps | app/gnt_nlp_utils/gnt_nlp_utils/clusterer.py:33 | what `strip` keeps is a slice of its input, starting after the leading characters `lstrip` removes |
| PyStrings.StripEnds | app/gnt_nlp_utils/gnt_nlp_utils/clusterer.py:33 | what `strip` keeps neither starts nor ends with whitespace |
| PyStrings.StripRemovesLeading | app/gnt_nlp_utils/gnt_nlp_utils/clusterer.py:33 | every character `strip` removes before the kept part is whitespace |
| PyStrings.StripRemovesTrailing | app/gnt_nlp_utils/gnt_nlp_utils/clusterer.py:33 | every character `strip` removes after the kept part is whitespace |

## Left out

- TF-IDF, PCA and K-means are parameters, and `Numerics.Valid` constrains only their shapes. Two things are not modelled: floating-point values, and scikit-learn's own bound that PCA can have at most as many components as features.
- GntClusterer.Reduce: scikit-learn's PCA raises `ValueError` when it is asked for more components than the frame has features. For texts `["aa", "aa", "bb"]` without stop words the TF-IDF frame has 2 features, and `reduce` asks for `min(15, 3) = 3` components. The source raises there, while `Reduce` returns rows of 3 columns, because `Numerics.Valid` bounds the components by the rows only.
- GntClusterer.Pipeline: for the same reason, when three or more texts give a TF-IDF frame with fewer features than `min(15, rows)`, the source raises `ValueError` in the first `reduce` (clusterer.py:118-119). The model returns a `Grouped` result there, and its "fails exactly when" clause does not cover that failure. The second `reduce` (clusterer.py:124-125) cannot raise once the first has succeeded, because its input then has `min(15, rows) >= 3` columns.
- GntClusterer.Pipeline: `TfidfVectorizer` raises `ValueError` on an empty vocabulary, for example when every word of the corpus is a stop word. The model's `tfIdf` is a total function, so `Pipeline` returns `Grouped` for such a corpus, and its "fails exactly when" clause does not cover that failure.
- GntClusterer.Pipeline: K-means starts from a random initialisation. The model's `kMeans` is one fixed function of the features and the cluster count, so the model says nothing about how the labels of two runs differ.
- The `"markers"` entry of each record is not modelled; it is a constant `{"color": "blue"}`.
- `GntClusterer.Pipeline` models a falsy `ground_truth` as the `MissingGroundTruth` failure, raised by the attribute access at line 129, and not as a single-group fallback. Raised exceptions become `Failed` results: `InvalidClusterCount` for K-means with fewer than one cluster, `LengthMismatch` for a DataFrame built from columns of different lengths.
- `GntClusterer.Pipeline` takes `STOP_WORDS` as the parameter `stopWords`. The stop-word download is network I/O.
- The test `test_pipeline` (nlp-utils/tests/test_nlp_utils.py:68-70) expects labels for a two-text corpus, which the short-circuit at clusterer.py:105-111 does not give. The model follows the code.
- `GntClusterer.Clean`, `BookClasses.GetBookClass` and `DataBaseFiller.LoadJson` have their inner loops written as the separate methods `CleanDocument`, `AppendGroupsOf` and `ReadText`. These methods are called from the outer loop, so the order of the steps is the same as in the source.
- `PyStrings.IsSpace` takes Python's whitespace set for `str.strip()` as a fixed set of 29 characters. There is no Unicode database. `GntClusterer.CleanTextIdempotent` is stated for texts whose only whitespace is `" "`: other whitespace is kept inside words by `split(" ")` but stripped at the ends.
- Mongo access is not modelled: `find`, `to_list`, `insert_many`, `drop`, `server_info`, the client and the collections `connect` opens, and `close`. `BookClasses.GetBookClass` receives the two collections' documents. `ClustererDatabase.MongoConnector.Connect` and `GntDatabase.MongoConnector.Connect` return the URI that would be handed to the client.
- `load_json` does not model the folder globbing and file reading. The files arrive as a sequence in glob order.
- The port is an integer, as the constructors declare it. A port passed as a string from the environment is not modelled.
- `MongoUri.ParseAssembleUri`, `ClustererDatabase.BuildUriReadsBack` and `GntDatabase.ConnectionUriReadsBack` are stated only for settings without the separators the reader cuts at:
  - no `:` in the user;
  - no `@` or `:` in the host;
  - no `/` in the database.

  The source does not percent-encode credentials, so for other settings the URI does not identify them.
- `DataBaseFiller.write_book_classes` passes one argument to `MongoConnector.write_book_classes`, which takes two (gnt_core/database_filler.py:80). That call is not modelled. The table it would store is modelled as `BookClassTable`.
- The `connect` of the LXX filler's connector is not modelled: lxx_core/database.py is not part of this model.
- The other `MongoConnector` methods, the routers, `config.py`, `instances.py`, `main.py`, `server.py`, the pydantic models and the front ends are not modelled. They are HTTP plumbing, database I/O, configuration and UI.

## Findings

| source | as written | input that shows it | evidently intended | confidence | as-written member | corrected member |
|---|---|---|---|---|---|---|
| app/gnt_core/gnt_core/database.py:53-55 | `mongo_user_password` is assigned only when `mongo_user` is truthy, and the f-string reads it unconditionally | `DataBaseFiller()` builds `MongoConnector(mongo_database, mongo_host, mongo_port)` with `mongo_user=None` (database_filler.py:28-29); its `connect` raises `UnboundLocalError`. The GNT API builds its connector the same way (gnt_api/instances.py:5-8) and calls `connect()` at startup (gnt_api/main.py:16-18), so its startup raises too | an empty user part when no user is set, as in the clusterer back end (clusterer_core/database.py:55) | high; not executed | GntDatabase.FillerConnect | GntDatabase.CorrectedConnectionUriReadsBack |
