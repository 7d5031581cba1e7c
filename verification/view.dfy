/**
 The student list as shown: the students matching the search box and the
 class-and-medium selector, ordered by roll number read as an integer.
 */
module View {
  import opened Text
  import opened Numbers
  import opened Seqs
  import opened Records

  /** `s.medium || 'English'`: a student without a medium counts as
      English medium. */
  function MediumOr(s: Student): string {
    if s.medium == "" then "English" else s.medium
  }

  /** The search box: the query occurs in the name, both lower-cased, or
      occurs in the roll number exactly as typed. An empty query matches
      every student. */
  predicate MatchesSearch(s: Student, query: string): (b: bool)
    ensures b <==> (exists i :: OccursAt(Lower(s.name), Lower(query), i))
                   || (exists i :: OccursAt(s.rollNo, query, i))
    ensures query == "" ==> b
  {
    assert query == "" ==> OccursAt(s.rollNo, query, 0);
    Contains(Lower(s.name), Lower(query)) || Contains(s.rollNo, query)
  }

  /** The selector holds "" for all classes or a value "class|medium". The
      value is split at every '|' and only the first two pieces are looked
      at; a value without a '|' has no medium piece and matches nobody. */
  predicate MatchesClass(s: Student, option: string): (b: bool)
    ensures option == "" ==> b
    ensures option != "" && '|' !in option ==> !b
  {
    SplitWithoutSeparator(option, '|');
    option == ""
    || (var parts := SplitOn(option, '|');
        s.className == parts[0] && |parts| > 1 && MediumOr(s) == parts[1])
  }

  predicate Matches(s: Student, query: string, option: string) {
    MatchesSearch(s, query) && MatchesClass(s, option)
  }

  function Matcher(query: string, option: string): Student -> bool {
    (s: Student) => Matches(s, query, option)
  }

  /** `parseInt(s.rollNo) || 0`, the sort key: a roll number without a
      digit sorts as 0, and any other key is the number read. */
  function RollKey(s: Student): (k: int)
    ensures (forall i :: 0 <= i < |s.rollNo| ==> !IsDigit(s.rollNo[i])) ==> k == 0
    ensures k != 0 ==> ParseInt(s.rollNo) == Num(k)
  {
    ParseIntOrZero(s.rollNo)
  }

  /** `filteredStudents`: every student that matches, as often as it is
      listed, and nothing else, in ascending roll-number order. */
  function Query(students: seq<Student>, query: string, option: string): (r: seq<Student>)
    ensures multiset(r) <= multiset(students)
    ensures forall s :: s in students ==> (s in r <==> Matches(s, query, option))
    ensures forall s :: s in students && Matches(s, query, option)
                        ==> multiset(r)[s] == multiset(students)[s]
    ensures SortedBy(r, RollKey)
  {
    FilterSortContents(students, Matcher(query, option), RollKey);
    SortBy(Filter(students, Matcher(query, option)), RollKey)
  }

  /** Students with equal roll keys keep the order they have in the store,
      as the stable sort guarantees. */
  lemma QueryStable(students: seq<Student>, query: string, option: string, k: int)
    ensures Filter(Query(students, query, option), HasKey(RollKey, k))
            == Filter(Filter(students, Matcher(query, option)), HasKey(RollKey, k))
  {
    SortByStable(Filter(students, Matcher(query, option)), RollKey, k);
  }

  /** With an empty search and no class selected, every student matches. */
  lemma EmptyFiltersMatchAll(s: Student)
    ensures Matches(s, "", "")
  {
    assert OccursAt(Lower(s.name), Lower(""), 0);
  }

  /** With both filters empty the view is the whole list, reordered. */
  lemma UnfilteredQueryIsPermutation(students: seq<Student>)
    ensures multiset(Query(students, "", "")) == multiset(students)
  {
    forall i | 0 <= i < |students|
      ensures Matcher("", "")(students[i])
    {
      EmptyFiltersMatchAll(students[i]);
    }
    FilterAll(students, Matcher("", ""));
  }

  /** Selecting the option for a class and a medium, neither containing
      '|', shows exactly the students of that class and medium. */
  lemma ClassOptionMatches(s: Student, cls: string, med: string)
    requires '|' !in cls && '|' !in med
    ensures MatchesClass(s, cls + "|" + med) <==> s.className == cls && MediumOr(s) == med
  {
    var parts := [cls, med];
    assert JoinWith(parts, '|') == cls + "|" + med by {
      assert parts[1..] == [med];
    }
    SplitJoin(parts, '|');
  }

  /** Running the query again on what it shows changes nothing. */
  lemma QueryIdempotent(students: seq<Student>, query: string, option: string)
    ensures Query(Query(students, query, option), query, option) == Query(students, query, option)
  {
    var r := Query(students, query, option);
    FilterMembers(students, Matcher(query, option));
    forall i | 0 <= i < |r|
      ensures Matcher(query, option)(r[i])
    {
      assert r[i] in multiset(r);
      assert r[i] in students;
    }
    FilterAll(r, Matcher(query, option));
    SortSortedIsIdentity(r, RollKey);
  }
}
