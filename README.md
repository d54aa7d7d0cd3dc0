# Survey of favourite foods of Makassar students — data model

A Streamlit page collects survey answers about students' favourite foods. This
project models the data handling under that page and proves properties about it.

- **Submission and record.** The form's submit handler accepts a submission only
  when the name, the favourite food and the reason are non-empty. It then builds
  one eight-column record: Nama, Jenis Kelamin, Umur, Semester, Universitas,
  Fakultas, Makanan Favorit, Alasan. The uploaded picture is only displayed and
  never stored.
- **Survey file.** `data_survei.csv` is modelled as rows of cells. Each accepted
  record adds one row at the end. The header row goes in only when the file did
  not exist before.
- **Sample generator.** It builds 100 synthetic respondents named
  "Mahasiswa 1" to "Mahasiswa 100". Every other field comes from a fixed
  reference list or a bounded random integer. The food list is weighted: 40 of
  its 48 entries are "Ayam Geprek".
- **Count tables behind the charts.**
  - Semester counts in key order (`value_counts().sort_index()`).
  - Food and university counts by descending count (`value_counts()`).
  - Two group-by sizes, (Umur, Semester) and (Universitas, Jenis Kelamin), with
    keys in lexicographic order (`groupby([...]).size()`).

Modules, one file each: `Wrappers` (Option), `Decimal` (Python `str` of a
non-negative int and its inverse), `Orders` (the key orders), `Survey` (reference
lists, Submission, Record, validation, row layout), `Store` (the survey file),
`Generator` (the sample), `Tables` (generic count tables) and `Charts` (the tables
of the chart page).

Random choices are inputs. A `Draw` holds one index into each reference list (what
`random.choice` picks) and the two `random.randint` results. The file system is
reduced to two fields: an existence flag, and the sequence of rows the file holds.

Two behaviours of the code are worth stating outright:
- The guard tests Python truthiness, not trimmed text, so a field of spaces is
  accepted (`Survey.BlankButNonEmptyAccepted`).
- The sample size is fixed at 100 (`range(100)`, app.py:106, 123).

## Model

| member | source | states |
|---|---|---|
| Survey.RepeatCounts | app.py:20 | `[x] * n` has length n; every element is x; x occurs n times and nothing else occurs |
| Survey.FoodListLength | app.py:20 | the food list has 48 entries, and "Ayam Geprek" occurs 40 times in it |
| Survey.FoodListMatchesWeights | app.py:20 | each dish occurs in the list exactly as often as its weight in the explicit distribution (40 for Ayam Geprek, 1 for each of the eight others, 0 for any other string) |
| Survey.DominantShare | app.py:20 | Ayam Geprek is five sixths of the food list |
| Survey.Validate | app.py:62-73 | a submission is accepted iff name, food and reason are all non-empty; the accepted record's cells are the submission's fields in the fixed column order; with form-bounded widgets the record is admissible |
| Survey.BlankButNonEmptyAccepted | app.py:63 | no trimming: a name, food and reason of one space each pass the guard |
| Survey.CellsUnderTheirColumns | app.py:64-73 | every cell of a data row lies under the header cell that names its DataFrame column |
| Survey.DecodeCells | app.py:64-74 | reading a written row back gives the record that was written |
| Survey.HeaderIsNoRecord | app.py:74 | the header row never decodes as a record and is never equal to a data row |
| Decimal.Show | app.py:98 | `str(n)` is a non-empty run of digits, with no leading zero unless n is 0 |
| Decimal.ParseShow | app.py:67-68 | the decimal text of an age or semester reads back as the same number |
| Decimal.ShowInjective | app.py:98 | different numbers have different decimal texts |
| Orders.StringLessIsStrictTotal | app.py:163 | Python's string comparison (code point by code point, proper prefix first) is a strict total order |
| Orders.LexIsStrictTotal | app.py:159 | the order on two-column group keys (first column, then second) is a strict total order when both column orders are |
| Store.LoadFileOf | app.py:74 | reading a file built by appends returns every appended record in append order |
| Store.HeaderOnceAndFirst | app.py:74 | a file built by any sequence of appends holds the header at most once: never when empty, otherwise exactly once and as the first row |
| Store.FileOfSnoc | app.py:74 | appending one record adds its row at the end, preceded by the header iff the file was empty |
| Store.SurveyFile.constructor | app.py:74 | the survey file starts out absent and empty |
| Store.SurveyFile.Append | app.py:74 | one append adds exactly one data row at the end, preceded by the header iff the file did not exist; earlier rows are unchanged and the file exists afterwards |
| Store.SurveyFile.Submit | app.py:62-79 | complete submission: its record is saved, as in Append; incomplete submission: no row, no header and no existence change; every stored record passed the guard |
| Store.SurveyFile.Load | app.py:91-94 | the saved data read back is exactly the records appended so far, in order; it is non-empty iff the file exists |
| Generator.SampleRecord | app.py:114-123 | record i is named "Mahasiswa {i+1}", and each field lies in its list or range (Umur in [17, 27], Semester in [1, 14]) |
| Generator.Sample | app.py:97-106 | exactly 100 records; record i is the record built from draw i, is named "Mahasiswa {i+1}" and has every field in its domain |
| Generator.SampleNamesDistinct | app.py:98 | two sample names are equal iff they have the same index |
| Generator.SampleRecordCovers | app.py:99-105 | conversely, any record with the right name and every field in its domain is the outcome of some in-range draw |
| Generator.SampleAdmissible | app.py:114-123 | every sample record would pass the submit guard and fits the form's bounds (age 17..30, semester 1..14) |
| Tables.TabulatesSize | app.py:126-127 | a count table has one entry per distinct value of its column, and its keys are exactly those values |
| Tables.SortByCount | app.py:131 | the count sort is a permutation of its input, sorted by non-increasing count, and keeps keys, per-key counts and total |
| Tables.SortedCounts | app.py:126 | the key-ordered table has distinct keys in strictly ascending order; each entry's key occurs in the column and its count is that value's multiplicity; every value has an entry; the counts sum to the column length |
| Tables.FrequencyCounts | app.py:131 | same count table, sorted by non-increasing count instead of by key |
| Charts.SemesterCounts | app.py:126-127 | semester table: distinct semesters in strictly ascending order, each with its multiplicity (so positive), covering every semester present, counts summing to the number of records |
| Charts.FoodCounts | app.py:131-132 | food table: one entry per distinct food with its multiplicity, counts non-increasing, summing to the number of records |
| Charts.UniversityCounts | app.py:154-155 | university table: one entry per distinct university with its multiplicity, counts non-increasing, summing to the number of records |
| Charts.AgeSemesterSizes | app.py:159 | (Umur, Semester) sizes: only observed pairs, each with its positive multiplicity, pairs distinct and in lexicographic order, counts summing to the number of records |
| Charts.UniversityGenderSizes | app.py:163 | (Universitas, Jenis Kelamin) sizes: only observed pairs, each with its multiplicity, distinct and in lexicographic string order, summing to the number of records |
| Charts.EmptyTables | app.py:126-163 | every table of an empty record sequence is empty |
| Tables.KeysOccur | app.py:159 | every table entry is keyed by a value that occurs in its column, and its count is positive |
| Charts.TwoRecordsSameSemester | app.py:126 | two records in semester 3, aged 20 and 22, give the semester table {3: 2} |
| Charts.TwoRecordsAgeSemester | app.py:159 | the same two records give the groups (20, 3) and (22, 3), in that order, each of size 1 |
| Charts.SampleSemesterTable | app.py:114-127 | for the generated sample, the semester counts total 100 and every key lies in 1..14 |
| Charts.SampleAgeSemesterTable | app.py:159 | for the generated sample, the (Umur, Semester) sizes total 100 and every key lies in [17, 27] x [1, 14] |
| Charts.SampleFrequencyTables | app.py:131-132 | for the generated sample, the food and university counts total 100, each key taken from its list |
| Charts.SampleUniversityGenderTable | app.py:163 | for the generated sample, the (Universitas, Jenis Kelamin) sizes total 100, with keys from the university and gender lists |

## Left out

- Page navigation, widgets, messages, image display and the map page (app.py:9, 29-60, 75-77, 166-178). These are presentation only, and the map's coordinates are constant data.
- Chart drawing with plotly. The pie chart (app.py:136) counts genders inside plotly, and the scatter plot (app.py:145) draws raw points; neither builds a table in the source.
- The histogram (app.py:139). Its `nbins=10` binning is internal to plotly.
- The box and violin plots (app.py:142, 151). They are statistics computed inside plotly.
- The correlation heatmap (app.py:148). It is floating-point numerics.
- CSV text. Upload parsing and `pd.read_csv` of the saved file (app.py:86-94) are foreign library code. `Store.LoadAll` is this model's own reader of rows of cells: no quoting, no type inference, no NaN for empty cells.
- The real file system. `os.path.exists` is the `present` field. The model starts from a missing file. It does not cover a file that exists but is empty, where pandas would append without a header.
- Concurrent sessions. Appends are assumed to happen one at a time. The exists-then-write at app.py:74 is not atomic, and two simultaneous submissions could both write a header or interleave their rows; `Store.SurveyFile.Append` and `Store.HeaderOnceAndFirst` hold for a single writer only.
- True randomness. Each random choice is an injected `Draw`, so the model says nothing about distributions beyond the food list's weights.
- Tables.FrequencyCounts: the order among equal counts is not part of the contract. The model keeps ties in order of first appearance, like pandas on small tables, but proves nothing about it.
- Integer width. Ages and semesters are unbounded naturals. Every value the widgets or `randint` produce is small and positive, so `str` is modelled only for non-negative numbers.
