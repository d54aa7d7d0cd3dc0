/**
  The count tables behind the chart page: semesters in key order (line
  chart), favourite foods and universities by descending count (bar and
  area charts), and the two group-by sizes (bubble and stacked bar charts).
*/
module Charts {
  import opened Orders
  import opened Survey
  import opened Generator
  import opened Tables

  // Columns of a sequence of records
  function Semesters(rs: seq<Record>): (xs: seq<nat>)
    ensures |xs| == |rs| && forall i :: 0 <= i < |rs| ==> xs[i] == rs[i].semester
  {
    seq(|rs|, i requires 0 <= i < |rs| => rs[i].semester)
  }

  function Foods(rs: seq<Record>): (xs: seq<string>)
    ensures |xs| == |rs| && forall i :: 0 <= i < |rs| ==> xs[i] == rs[i].makanan
  {
    seq(|rs|, i requires 0 <= i < |rs| => rs[i].makanan)
  }

  function Universities(rs: seq<Record>): (xs: seq<string>)
    ensures |xs| == |rs| && forall i :: 0 <= i < |rs| ==> xs[i] == rs[i].universitas
  {
    seq(|rs|, i requires 0 <= i < |rs| => rs[i].universitas)
  }

  function AgeSemesterPairs(rs: seq<Record>): (xs: seq<(nat, nat)>)
    ensures |xs| == |rs| && forall i :: 0 <= i < |rs| ==> xs[i] == (rs[i].umur, rs[i].semester)
  {
    seq(|rs|, i requires 0 <= i < |rs| => (rs[i].umur, rs[i].semester))
  }

  function UniversityGenderPairs(rs: seq<Record>): (xs: seq<(string, string)>)
    ensures |xs| == |rs| && forall i :: 0 <= i < |rs| ==> xs[i] == (rs[i].universitas, rs[i].jenisKelamin)
  {
    seq(|rs|, i requires 0 <= i < |rs| => (rs[i].universitas, rs[i].jenisKelamin))
  }

  /** df['Semester'].value_counts().sort_index() */
  function SemesterCounts(rs: seq<Record>): (t: seq<Entry<nat>>)
    ensures Tabulates(t, Semesters(rs))
    ensures Ascending(t, NatLess)
  {
    NatLessIsStrictTotal();
    SortedCounts(Semesters(rs), NatLess)
  }

  /** df['Makanan Favorit'].value_counts() */
  function FoodCounts(rs: seq<Record>): (t: seq<Entry<string>>)
    ensures Tabulates(t, Foods(rs))
    ensures NonIncreasing(t)
  {
    FrequencyCounts(Foods(rs))
  }

  /** df['Universitas'].value_counts() */
  function UniversityCounts(rs: seq<Record>): (t: seq<Entry<string>>)
    ensures Tabulates(t, Universities(rs))
    ensures NonIncreasing(t)
  {
    FrequencyCounts(Universities(rs))
  }

  /** df.groupby(['Umur', 'Semester']).size() */
  function AgeSemesterSizes(rs: seq<Record>): (t: seq<Entry<(nat, nat)>>)
    ensures Tabulates(t, AgeSemesterPairs(rs))
    ensures Ascending(t, Lex(NatLess, NatLess))
  {
    NatLessIsStrictTotal();
    LexIsStrictTotal(NatLess, NatLess);
    SortedCounts(AgeSemesterPairs(rs), Lex(NatLess, NatLess))
  }

  /** df.groupby(['Universitas', 'Jenis Kelamin']).size() */
  function UniversityGenderSizes(rs: seq<Record>): (t: seq<Entry<(string, string)>>)
    ensures Tabulates(t, UniversityGenderPairs(rs))
    ensures Ascending(t, Lex(StringLess, StringLess))
  {
    StringLessIsStrictTotal();
    LexIsStrictTotal(StringLess, StringLess);
    SortedCounts(UniversityGenderPairs(rs), Lex(StringLess, StringLess))
  }

  /** Every table of no records is empty. */
  lemma EmptyTables()
    ensures SemesterCounts([]) == [] && FoodCounts([]) == [] && UniversityCounts([]) == []
    ensures AgeSemesterSizes([]) == [] && UniversityGenderSizes([]) == []
  {
  }

  /** Two records in semester 3, aged 20 and 22: the semester table is {3: 2}. */
  lemma TwoRecordsSameSemester(a: Record, b: Record)
    requires a.umur == 20 && a.semester == 3 && b.umur == 22 && b.semester == 3
    ensures SemesterCounts([a, b]) == [Entry(3, 2)]
  {
    var t := SemesterCounts([a, b]);
    var xs := Semesters([a, b]);
    assert xs == [3, 3];
    assert Values(xs) == {3};
    TabulatesSize(t, xs);
    assert t[0].key in KeySet(t);
    assert t[0].count == multiset(xs)[3] == 2;
    assert t == [t[0]];
  }

  /** The same two records give two (Umur, Semester) groups, in key order. */
  lemma TwoRecordsAgeSemester(a: Record, b: Record)
    requires a.umur == 20 && a.semester == 3 && b.umur == 22 && b.semester == 3
    ensures AgeSemesterSizes([a, b]) == [Entry((20, 3), 1), Entry((22, 3), 1)]
  {
    var u := AgeSemesterSizes([a, b]);
    var ps := AgeSemesterPairs([a, b]);
    var p: (nat, nat), q: (nat, nat) := (20, 3), (22, 3);
    assert ps == [p, q];
    assert Values(ps) == {p, q};
    TabulatesSize(u, ps);
    var lt := Lex(NatLess, NatLess);
    assert lt(p, q) == (NatLess(p.0, q.0) || (p.0 == q.0 && NatLess(p.1, q.1)));
    assert u[0].key in KeySet(u) && u[1].key in KeySet(u);
    assert lt(q, p) == (NatLess(q.0, p.0) || (q.0 == p.0 && NatLess(q.1, p.1)));
    assert !lt(q, p);
    assert u[0].key != u[1].key;
    assert lt(u[0].key, u[1].key);
    assert u[0].key == p && u[1].key == q;
    assert multiset(ps)[p] == 1 && multiset(ps)[q] == 1;
    assert u == [u[0], u[1]];
  }

  /** On the generated sample the semester table totals 100, keys within 1..14. */
  lemma SampleSemesterTable(draws: seq<Draw>)
    requires |draws| == SampleSize
    requires forall i :: 0 <= i < |draws| ==> InRange(draws[i])
    ensures Total(SemesterCounts(Sample(draws))) == SampleSize
    ensures forall e :: e in SemesterCounts(Sample(draws)) ==> MinSemester <= e.key <= MaxSemester
  {
    var rs := Sample(draws);
    forall e | e in SemesterCounts(rs) ensures MinSemester <= e.key <= MaxSemester {
      KeysOccur(SemesterCounts(rs), Semesters(rs), e);
      var j :| 0 <= j < |rs| && Semesters(rs)[j] == e.key;
    }
  }

  /** On the generated sample the (Umur, Semester) sizes total 100, keys within [17, 27] x [1, 14]. */
  lemma SampleAgeSemesterTable(draws: seq<Draw>)
    requires |draws| == SampleSize
    requires forall i :: 0 <= i < |draws| ==> InRange(draws[i])
    ensures Total(AgeSemesterSizes(Sample(draws))) == SampleSize
    ensures forall e :: e in AgeSemesterSizes(Sample(draws)) ==>
      MinAge <= e.key.0 <= MaxSampleAge && MinSemester <= e.key.1 <= MaxSemester
  {
    var rs := Sample(draws);
    forall e | e in AgeSemesterSizes(rs)
      ensures MinAge <= e.key.0 <= MaxSampleAge && MinSemester <= e.key.1 <= MaxSemester
    {
      KeysOccur(AgeSemesterSizes(rs), AgeSemesterPairs(rs), e);
      var j :| 0 <= j < |rs| && AgeSemesterPairs(rs)[j] == e.key;
    }
  }

  /** On the generated sample the food and university tables total 100, keys from their lists. */
  lemma SampleFrequencyTables(draws: seq<Draw>)
    requires |draws| == SampleSize
    requires forall i :: 0 <= i < |draws| ==> InRange(draws[i])
    ensures Total(FoodCounts(Sample(draws))) == SampleSize
    ensures Total(UniversityCounts(Sample(draws))) == SampleSize
    ensures forall e :: e in FoodCounts(Sample(draws)) ==> e.key in FoodList
    ensures forall e :: e in UniversityCounts(Sample(draws)) ==> e.key in UniversityList
  {
    var rs := Sample(draws);
    forall e | e in FoodCounts(rs) ensures e.key in FoodList {
      KeysOccur(FoodCounts(rs), Foods(rs), e);
      var j :| 0 <= j < |rs| && Foods(rs)[j] == e.key;
    }
    forall e | e in UniversityCounts(rs) ensures e.key in UniversityList {
      KeysOccur(UniversityCounts(rs), Universities(rs), e);
      var j :| 0 <= j < |rs| && Universities(rs)[j] == e.key;
    }
  }

  /** On the generated sample the (Universitas, Jenis Kelamin) sizes total 100, keys from the lists. */
  lemma SampleUniversityGenderTable(draws: seq<Draw>)
    requires |draws| == SampleSize
    requires forall i :: 0 <= i < |draws| ==> InRange(draws[i])
    ensures Total(UniversityGenderSizes(Sample(draws))) == SampleSize
    ensures forall e :: e in UniversityGenderSizes(Sample(draws)) ==>
      e.key.0 in UniversityList && e.key.1 in GenderList
  {
    var rs := Sample(draws);
    forall e | e in UniversityGenderSizes(rs) ensures e.key.0 in UniversityList && e.key.1 in GenderList {
      KeysOccur(UniversityGenderSizes(rs), UniversityGenderPairs(rs), e);
      var j :| 0 <= j < |rs| && UniversityGenderPairs(rs)[j] == e.key;
    }
  }
}
