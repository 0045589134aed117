/**
 * The two table filters of the week-4 in-class exercise: people by city over a
 * fixed four-row table, and rows of a loaded table by a salary upper bound.
 */
module InClassFilters {
  import opened Wrappers
  import opened Seqs

  datatype Person = Person(name: string, age: int, city: string)

  /** The table the exercise builds in place. */
  const People: seq<Person> := [
    Person("Alice", 25, "New York"),
    Person("Bob", 30, "Los Angeles"),
    Person("Charlie", 35, "Chicago"),
    Person("David", 40, "Houston")
  ]

  function CityOf(p: Person): string { p.city }

  /** The cities the selectbox offers: `df["City"].unique()`. */
  function Cities(df: seq<Person>): (r: seq<string>)
    ensures NoDups(r)
    ensures forall c :: c in r <==> exists p :: p in df && p.city == c
  {
    var cities := Map(df, CityOf);
    assert forall p :: p in df ==> p.city in cities by {
      forall p | p in df ensures p.city in cities {
        var i :| 0 <= i < |df| && df[i] == p;
        assert cities[i] == p.city;
      }
    }
    Distinct(cities)
  }

  function InCity(city: string): Person -> bool {
    (p: Person) => p.city == city
  }

  /** `df[df['City'] == city]`: exactly the people living in `city`, every copy of each row, in table order. */
  function PeopleIn(df: seq<Person>, city: string): (r: seq<Person>)
    ensures forall p :: p in r ==> p in df && p.city == city
    ensures forall p :: p in df && p.city == city ==> p in r
    ensures forall p :: multiset(r)[p] == if p.city == city then multiset(df)[p] else 0
    ensures Subseq(r, df)
  {
    FilterSubseq(df, InCity(city));
    FilterCounts(df, InCity(city));
    Filter(df, InCity(city))
  }

  /** A city offered by the selectbox always has someone living there. */
  lemma OfferedCityIsInhabited(df: seq<Person>, city: string)
    requires city in Cities(df)
    ensures PeopleIn(df, city) != []
  {
    var p :| p in df && p.city == city;
  }

  /** When no two people share a city, a city filter shows at most one person. */
  lemma {:induction false} DistinctCitiesAtMostOne(df: seq<Person>, city: string)
    requires NoDups(Map(df, CityOf))
    ensures |PeopleIn(df, city)| <= 1
  {
    if df != [] {
      var cities := Map(df, CityOf);
      var tail := df[1..];
      assert Map(tail, CityOf) == cities[1..];
      DistinctCitiesAtMostOne(tail, city);
      if df[0].city == city {
        forall x | x in tail ensures !InCity(city)(x) {
          var j :| 0 <= j < |tail| && tail[j] == x;
          assert df[j + 1] == x && cities[j + 1] == x.city;
          assert cities[0] == city && cities[0] != cities[j + 1];
        }
        FilterKeepsNone(tail, InCity(city));
      }
    }
  }

  /** When no two people share a city, each offered city shows exactly one person. */
  lemma OfferedCityShowsOne(df: seq<Person>, city: string)
    requires NoDups(Map(df, CityOf)) && city in Cities(df)
    ensures |PeopleIn(df, city)| == 1
  {
    OfferedCityIsInhabited(df, city);
    DistinctCitiesAtMostOne(df, city);
  }

  /** The four people of the exercise's own table live in four different cities. */
  lemma SampleCitiesDiffer()
    ensures NoDups(Map(People, CityOf))
  {
    var cities := Map(People, CityOf);
    assert cities == ["New York", "Los Angeles", "Chicago", "Houston"];
  }

  /** A row of the loaded salary table: its other cells, as text, and its Salary. */
  datatype SalaryRow = SalaryRow(cells: seq<string>, salary: real)

  function SalaryOf(r: SalaryRow): real { r.salary }

  function AtMost(salary: real): SalaryRow -> bool {
    (r: SalaryRow) => r.salary <= salary
  }

  /** `df2[df2['Salary'] <= salary]`: exactly the rows earning at most `salary`, every copy of each, in table order. */
  function SalariesUpTo(df: seq<SalaryRow>, salary: real): (r: seq<SalaryRow>)
    ensures forall x :: x in r ==> x in df && x.salary <= salary
    ensures forall x :: x in df && x.salary <= salary ==> x in r
    ensures forall x :: multiset(r)[x] == if x.salary <= salary then multiset(df)[x] else 0
    ensures Subseq(r, df)
  {
    FilterSubseq(df, AtMost(salary));
    FilterCounts(df, AtMost(salary));
    Filter(df, AtMost(salary))
  }

  /** The slider's upper end, the largest Salary, keeps every row. */
  lemma MaxSalaryKeepsAll(df: seq<SalaryRow>)
    requires df != []
    ensures MaxOf(Map(df, SalaryOf)).Some?
    ensures SalariesUpTo(df, MaxOf(Map(df, SalaryOf)).value) == df
  {
    var salaries := Map(df, SalaryOf);
    var top := MaxOf(salaries).value;
    forall x | x in df ensures x.salary <= top {
      var i :| 0 <= i < |df| && df[i] == x;
      assert salaries[i] == x.salary && salaries[i] in salaries;
    }
    FilterKeepsAll(df, AtMost(top));
  }

  /** Raising the salary bound never removes a row, and keeps their order. */
  lemma RaisingSalaryKeepsRows(df: seq<SalaryRow>, s1: real, s2: real)
    requires s1 <= s2
    ensures Subseq(SalariesUpTo(df, s1), SalariesUpTo(df, s2))
    ensures forall x :: x in SalariesUpTo(df, s1) ==> x in SalariesUpTo(df, s2)
  {
    FilterMonotone(df, AtMost(s1), AtMost(s2));
  }
}
