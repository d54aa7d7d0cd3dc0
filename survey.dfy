/**
  The survey's reference lists, the form submission, the validation guard
  and the eight-column respondent record written to the survey file.
*/
module Survey {
  import opened Wrappers
  import opened Decimal

  // ---------------------------------------------------------------------
  // Reference lists
  // ---------------------------------------------------------------------

  const UniversityList: seq<string> := [
    "UNHAS", "UNM", "UP", "UIN Alauddin",
    "STIMIK Dipanegara", "Universitas Bosowa", "Universitas Muslim Indonesia"
  ]

  const FacultyList: seq<string> := [
    "Fakultas Teknik", "Fakultas Kedokteran", "Fakultas Ekonomi",
    "Fakultas Hukum", "Fakultas Sastra", "Fakultas Ilmu Sosial", "Fakultas Pertanian"
  ]

  const DominantFood: string := "Ayam Geprek"

  const OtherFoods: seq<string> := [
    "Mie Goreng", "Nasi Kuning", "Bakso", "Soto", "Coto Makassar", "Pallubasa", "Pizza", "Burger"
  ]

  /** The food list is weighted by repetition: 40 copies of one dish, then eight others. */
  const FoodList: seq<string> := Repeat(DominantFood, 40) + OtherFoods

  /** The same weighting written as an explicit discrete distribution. */
  const FoodWeights: map<string, nat> := map[
    "Ayam Geprek" := 40, "Mie Goreng" := 1, "Nasi Kuning" := 1, "Bakso" := 1,
    "Soto" := 1, "Coto Makassar" := 1, "Pallubasa" := 1, "Pizza" := 1, "Burger" := 1
  ]

  const GenderList: seq<string> := ["Pria", "Wanita"]

  const ReasonList: seq<string> := [
    "Enak dan pedas", "Murah dan mengenyangkan", "Rasa khas daerah",
    "Banyak topping", "Cepat disajikan", "Favorit sejak kecil",
    "Bikin nagih", "Cocok di lidah"
  ]

  /** The form's university selector offers the list plus "Lainnya" (other). */
  const FormUniversities: seq<string> := UniversityList + ["Lainnya"]

  const MinAge: nat := 17
  const MaxFormAge: nat := 30
  const MinSemester: nat := 1
  const MaxSemester: nat := 14

  /** Python's `[x] * n`. */
  function Repeat<T>(x: T, n: nat): seq<T> {
    seq(n, _ => x)
  }

  lemma {:induction false} RepeatCounts<T>(x: T, n: nat)
    ensures |Repeat(x, n)| == n
    ensures forall k :: 0 <= k < n ==> Repeat(x, n)[k] == x
    ensures forall y :: multiset(Repeat(x, n))[y] == if y == x then n else 0
  {
    if n > 0 {
      RepeatCounts(x, n - 1);
      assert Repeat(x, n) == Repeat(x, n - 1) + [x];
    }
  }

  /** A list weighted by repeating one item n times before the others. */
  lemma WeightedList<T>(x: T, n: nat, others: seq<T>)
    requires x !in others
    ensures |Repeat(x, n) + others| == n + |others|
    ensures forall y :: multiset(Repeat(x, n) + others)[y] == if y == x then n else multiset(others)[y]
  {
    RepeatCounts(x, n);
    assert multiset(Repeat(x, n) + others) == multiset(Repeat(x, n)) + multiset(others);
  }

  /** In a list without repetitions every member occurs once. */
  lemma {:induction false} NoRepeatsOnce<T>(s: seq<T>)
    requires forall i, j :: 0 <= i < j < |s| ==> s[i] != s[j]
    ensures forall y :: multiset(s)[y] == if y in s then 1 else 0
  {
    if s != [] {
      var r := s[1..];
      assert s == [s[0]] + r;
      assert forall i, j :: 0 <= i < j < |r| ==> r[i] != r[j] by {
        forall i, j | 0 <= i < j < |r| ensures r[i] != r[j] {
          assert r[i] == s[i + 1] && r[j] == s[j + 1];
        }
      }
      assert s[0] !in r by {
        forall j | 0 <= j < |r| ensures r[j] != s[0] {
          assert r[j] == s[j + 1];
        }
      }
      NoRepeatsOnce(r);
    }
  }

  lemma OtherFoodsDistinct()
    ensures forall i, j :: 0 <= i < j < |OtherFoods| ==> OtherFoods[i] != OtherFoods[j]
    ensures DominantFood !in OtherFoods
  {
  }

  lemma FoodWeightsKeys()
    ensures forall f :: f in FoodWeights <==> f == DominantFood || f in OtherFoods
    ensures DominantFood in FoodWeights && FoodWeights[DominantFood] == 40
    ensures forall f :: f in OtherFoods ==> f in FoodWeights && FoodWeights[f] == 1
  {
  }

  /** The food list has 48 entries and the dominant dish occurs 40 times in it. */
  lemma FoodListLength()
    ensures |FoodList| == 48
    ensures multiset(FoodList)[DominantFood] == 40
  {
    OtherFoodsDistinct();
    WeightedList(DominantFood, 40, OtherFoods);
  }

  /** Every dish on the food list has a non-empty name. */
  lemma FoodNamesNonEmpty()
    ensures forall k :: 0 <= k < |FoodList| ==> FoodList[k] != ""
  {
    RepeatCounts(DominantFood, 40);
    forall k | 0 <= k < |FoodList| ensures FoodList[k] != "" {
      if k < 40 {
        assert FoodList[k] == DominantFood;
      } else {
        assert FoodList[k] == OtherFoods[k - 40];
      }
    }
  }

  /**
   * A list made of `n` copies of `x` and a list of distinct others matches a
   * weight map that gives `x` weight `n` and every other member weight 1.
   */
  lemma WeightedCounts<T>(x: T, n: nat, others: seq<T>, w: map<T, nat>)
    requires x !in others
    requires forall i, j :: 0 <= i < j < |others| ==> others[i] != others[j]
    requires forall y :: y in w <==> y == x || y in others
    requires x in w && w[x] == n
    requires forall y :: y in others ==> y in w && w[y] == 1
    ensures forall y :: multiset(Repeat(x, n) + others)[y] == if y in w then w[y] else 0
  {
    WeightedList(x, n, others);
    NoRepeatsOnce(others);
  }

  /** Drawing uniformly from the list is drawing from the weighted distribution. */
  lemma FoodListMatchesWeights()
    ensures forall f :: multiset(FoodList)[f] == if f in FoodWeights then FoodWeights[f] else 0
  {
    OtherFoodsDistinct();
    FoodWeightsKeys();
    WeightedCounts(DominantFood, 40, OtherFoods, FoodWeights);
  }

  /** The dominant dish is five sixths of the list. */
  lemma DominantShare()
    ensures 6 * multiset(FoodList)[DominantFood] == 5 * |FoodList|
  {
    FoodListLength();
  }

  // ---------------------------------------------------------------------
  // Submissions and records
  // ---------------------------------------------------------------------

  /**
    What the form hands over when "Kirim" is pressed. The uploaded picture is
    only displayed and never becomes part of the record.
  */
  datatype Submission = Submission(
    nama: string, jenisKelamin: string, umur: nat, semester: nat,
    universitas: string, fakultas: string, makanan: string, alasan: string,
    gambar: Option<seq<bv8>>)

  /** One survey row, in the column order of the survey file. */
  datatype Record = Record(
    nama: string, jenisKelamin: string, umur: nat, semester: nat,
    universitas: string, fakultas: string, makanan: string, alasan: string)

  /** The values the form's widgets can produce. */
  predicate FromForm(s: Submission) {
    && s.jenisKelamin in GenderList
    && MinAge <= s.umur <= MaxFormAge
    && MinSemester <= s.semester <= MaxSemester
    && s.universitas in FormUniversities
  }

  /** The guard: name, favourite food and reason must be truthy, i.e. non-empty. */
  predicate Complete(nama: string, makanan: string, alasan: string) {
    nama != "" && makanan != "" && alasan != ""
  }

  /** A record the form could have produced and the guard let through. */
  predicate Admissible(r: Record) {
    && Complete(r.nama, r.makanan, r.alasan)
    && r.jenisKelamin in GenderList
    && MinAge <= r.umur <= MaxFormAge
    && MinSemester <= r.semester <= MaxSemester
    && r.universitas in FormUniversities
  }

  /** Accept a submission and build its record, or reject it. */
  function Validate(s: Submission): (r: Option<Record>)
    ensures r.Some? <==> s.nama != "" && s.makanan != "" && s.alasan != ""
    ensures r.Some? ==> Cells(r.value) == [
      s.nama, s.jenisKelamin, Show(s.umur), Show(s.semester),
      s.universitas, s.fakultas, s.makanan, s.alasan]
    ensures r.Some? && FromForm(s) ==> Admissible(r.value)
  {
    if Complete(s.nama, s.makanan, s.alasan) then
      Some(Record(s.nama, s.jenisKelamin, s.umur, s.semester,
                  s.universitas, s.fakultas, s.makanan, s.alasan))
    else
      None
  }

  /** No trimming happens: a name of spaces passes the guard. */
  lemma BlankButNonEmptyAccepted(s: Submission)
    requires s.nama == " " && s.makanan == " " && s.alasan == " "
    ensures Validate(s).Some? && Validate(s).value.nama == " "
  {
  }

  // ---------------------------------------------------------------------
  // The row layout of the survey file
  // ---------------------------------------------------------------------

  type Row = seq<string>

  const Columns: Row := [
    "Nama", "Jenis Kelamin", "Umur", "Semester",
    "Universitas", "Fakultas", "Makanan Favorit", "Alasan"]

  /** The value the record holds under a column name (the DataFrame's dictionary). */
  function Field(r: Record, column: string): string {
    if column == "Nama" then r.nama
    else if column == "Jenis Kelamin" then r.jenisKelamin
    else if column == "Umur" then Show(r.umur)
    else if column == "Semester" then Show(r.semester)
    else if column == "Universitas" then r.universitas
    else if column == "Fakultas" then r.fakultas
    else if column == "Makanan Favorit" then r.makanan
    else if column == "Alasan" then r.alasan
    else ""
  }

  /** The cells of the data row a record is written as. */
  function Cells(r: Record): (row: Row)
    ensures |row| == |Columns|
  {
    [r.nama, r.jenisKelamin, Show(r.umur), Show(r.semester),
     r.universitas, r.fakultas, r.makanan, r.alasan]
  }

  /** Each cell sits under the header cell that names its field. */
  lemma CellsUnderTheirColumns(r: Record)
    ensures forall c :: 0 <= c < |Columns| ==> Cells(r)[c] == Field(r, Columns[c])
  {
  }

  /** Reading a data row back into a record. */
  function DecodeRow(row: Row): Option<Record> {
    if |row| != |Columns| then None
    else
      match (Parse(row[2]), Parse(row[3]))
      case (Some(umur), Some(semester)) =>
        Some(Record(row[0], row[1], umur, semester, row[4], row[5], row[6], row[7]))
      case _ => None
  }

  /** Writing a record and reading the row back gives the record. */
  lemma DecodeCells(r: Record)
    ensures DecodeRow(Cells(r)) == Some(r)
  {
    ParseShow(r.umur);
    ParseShow(r.semester);
  }

  /** The header row is never a data row: its age cell is not a number. */
  lemma HeaderIsNoRecord(r: Record)
    ensures DecodeRow(Columns) == None
    ensures Cells(r) != Columns
  {
    assert !IsDigit(Columns[2][0]);
    assert Cells(r)[2] != Columns[2];
  }
}
