/**
  The synthetic respondents shown on the survey data and chart pages: 100
  records named "Mahasiswa 1" .. "Mahasiswa 100", every other field drawn
  at random. The random choices arrive as a Draw per record: an index into
  each reference list (random.choice) and the two random.randint values.
*/
module Generator {
  import opened Decimal
  import opened Survey

  const SampleSize: nat := 100
  const MaxSampleAge: nat := 27

  datatype Draw = Draw(
    gender: nat, umur: nat, semester: nat,
    university: nat, faculty: nat, food: nat, reason: nat)

  /** What random.choice and random.randint(17, 27) / randint(1, 14) can return. */
  predicate InRange(d: Draw) {
    && d.gender < |GenderList|
    && MinAge <= d.umur <= MaxSampleAge
    && MinSemester <= d.semester <= MaxSemester
    && d.university < |UniversityList|
    && d.faculty < |FacultyList|
    && d.food < |FoodList|
    && d.reason < |ReasonList|
  }

  function SampleName(i: nat): string {
    "Mahasiswa " + Show(i + 1)
  }

  /** Every field in its declared domain. */
  predicate SampleDomain(r: Record) {
    && r.jenisKelamin in GenderList
    && MinAge <= r.umur <= MaxSampleAge
    && MinSemester <= r.semester <= MaxSemester
    && r.universitas in UniversityList
    && r.fakultas in FacultyList
    && r.makanan in FoodList
    && r.alasan in ReasonList
  }

  function SampleRecord(i: nat, d: Draw): (r: Record)
    requires InRange(d)
    ensures r.nama == SampleName(i) && SampleDomain(r)
  {
    Record(SampleName(i), GenderList[d.gender], d.umur, d.semester,
           UniversityList[d.university], FacultyList[d.faculty],
           FoodList[d.food], ReasonList[d.reason])
  }

  /** The list comprehension over range(100). */
  function Sample(draws: seq<Draw>): (rs: seq<Record>)
    requires |draws| == SampleSize
    requires forall i :: 0 <= i < |draws| ==> InRange(draws[i])
    ensures |rs| == SampleSize
    ensures forall i :: 0 <= i < |rs| ==> rs[i] == SampleRecord(i, draws[i])
    ensures forall i :: 0 <= i < |rs| ==> rs[i].nama == SampleName(i) && SampleDomain(rs[i])
  {
    seq(SampleSize, i requires 0 <= i < SampleSize => SampleRecord(i, draws[i]))
  }

  /** The sample names are pairwise distinct. */
  lemma SampleNamesDistinct(i: nat, j: nat)
    ensures SampleName(i) == SampleName(j) <==> i == j
  {
    var p := "Mahasiswa ";
    if SampleName(i) == SampleName(j) {
      assert SampleName(i)[|p|..] == Show(i + 1);
      assert SampleName(j)[|p|..] == Show(j + 1);
      ShowInjective(i + 1, j + 1);
    }
  }

  function IndexOf(xs: seq<string>, x: string): (k: nat)
    requires x in xs
    ensures k < |xs| && xs[k] == x
  {
    if xs[0] == x then 0 else 1 + IndexOf(xs[1..], x)
  }

  /** Conversely, every in-domain record with the right name is some draw's outcome. */
  lemma SampleRecordCovers(i: nat, r: Record)
    requires SampleDomain(r) && r.nama == SampleName(i)
    ensures exists d :: InRange(d) && SampleRecord(i, d) == r
  {
    var d := Draw(IndexOf(GenderList, r.jenisKelamin), r.umur, r.semester,
                  IndexOf(UniversityList, r.universitas), IndexOf(FacultyList, r.fakultas),
                  IndexOf(FoodList, r.makanan), IndexOf(ReasonList, r.alasan));
    assert InRange(d) && SampleRecord(i, d) == r;
  }

  /** A sample record would pass the form's guard and fit the form's bounds. */
  lemma SampleAdmissible(i: nat, d: Draw)
    requires InRange(d)
    ensures Admissible(SampleRecord(i, d))
  {
    assert SampleName(i)[0] == 'M';
    assert ReasonList[d.reason] != "";
    FoodNamesNonEmpty();
  }
}
