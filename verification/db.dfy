/**
 * The pure logic of the experience repository (lib/db.ts): the client-side
 * query pipeline behind the search form, the facet lists that fill the filter
 * selectors, and the mapping of the re-read like counter to the value
 * `likeExperience` returns. Store reads are parameters: a `Fetch` is the data
 * the hosted store sent back, or the error it reported.
 */
module Db {
  import opened Wrappers
  import opened Seqs
  import opened Text

  /** A row of the `users` table. */
  datatype User = User(id: string, email: string, createdAt: string)

  /** One interview stage with its ordered questions. */
  datatype Round = Round(roundName: string, description: string, questions: seq<string>)

  /** One submitted interview report, as `get_all_experiences` assembles it. */
  datatype Experience = Experience(
    id: int,
    userId: string,
    company: string,
    role: string,
    date: string,
    location: string,
    interviewType: string,
    rounds: seq<Round>,
    overallExperience: string,
    tips: string,
    salary: Option<string>,
    difficulty: string,
    outcome: string,
    likes: int,
    createdAt: string)

  /** The reply of one store read: the rows, or the error object it reported. */
  datatype Fetch<T> = Fetched(data: T) | StoreError

  /** The six columns that have an exact-match criterion and a facet list. */
  datatype Field = Company | Role | Location | InterviewType | Difficulty | Outcome

  function FieldOf(e: Experience, f: Field): string
  {
    match f
    case Company => e.company
    case Role => e.role
    case Location => e.location
    case InterviewType => e.interviewType
    case Difficulty => e.difficulty
    case Outcome => e.outcome
  }

  /** The exact-match criteria in the order the pipeline applies them. */
  const CriteriaFields: seq<Field> := [Company, Role, Location, InterviewType, Difficulty, Outcome]

  /** The optional members of the `filters` argument of `getFilteredExperiences`. */
  datatype Filters = Filters(
    search: Option<string>,
    company: Option<string>,
    role: Option<string>,
    location: Option<string>,
    interviewType: Option<string>,
    difficulty: Option<string>,
    outcome: Option<string>)

  function Criterion(filters: Filters, f: Field): Option<string>
  {
    match f
    case Company => filters.company
    case Role => filters.role
    case Location => filters.location
    case InterviewType => filters.interviewType
    case Difficulty => filters.difficulty
    case Outcome => filters.outcome
  }

  /** JavaScript truthiness of an optional string: present and not empty. */
  predicate Given(o: Option<string>)
  {
    o.Some? && o.value != ""
  }

  /** No criterion is given: the query asks for everything. */
  predicate Unfiltered(filters: Filters)
  {
    !Given(filters.search) && forall f :: !Given(Criterion(filters, f))
  }

  // ----- The pipeline, in the order lib/db.ts applies them -----

  /** The lowercased needle occurs in the lowercased company, role or location. */
  predicate SearchHit(e: Experience, needle: string)
  {
    Contains(Lower(e.company), needle) || Contains(Lower(e.role), needle) || Contains(Lower(e.location), needle)
  }

  function ApplySearch(xs: seq<Experience>, search: Option<string>): seq<Experience>
  {
    if Given(search) then
      var needle := Lower(search.value);
      Filter(xs, e => SearchHit(e, needle))
    else xs
  }

  function ApplyCriterion(xs: seq<Experience>, f: Field, c: Option<string>): seq<Experience>
  {
    if Given(c) then
      var wanted := c.value;
      Filter(xs, e => FieldOf(e, f) == wanted)
    else xs
  }

  /** Applies the criteria of `fields`, in order, each as its own filter pass. */
  function ApplyCriteria(xs: seq<Experience>, filters: Filters, fields: seq<Field>): (r: seq<Experience>)
    ensures |r| <= |xs|
    ensures forall e :: e in r ==> e in xs
    decreases |fields|
  {
    if |fields| == 0 then xs
    else ApplyCriteria(ApplyCriterion(xs, fields[0], Criterion(filters, fields[0])), filters, fields[1..])
  }

  /**
   * `getFilteredExperiences`: fetch every experience, then narrow by the
   * search text and by each given exact-match criterion. A store error
   * yields the empty list.
   */
  function GetFilteredExperiences(fetched: Fetch<seq<Experience>>, filters: Filters): (r: seq<Experience>)
    ensures fetched.StoreError? ==> r == []
    ensures fetched.Fetched? ==> |r| <= |fetched.data|
    ensures forall e :: e in r ==> fetched.Fetched? && e in fetched.data
  {
    match fetched
    case StoreError => []
    case Fetched(data) => ApplyCriteria(ApplySearch(data, filters.search), filters, CriteriaFields)
  }

  // ----- What the pipeline computes, as one predicate -----

  predicate SearchMet(e: Experience, filters: Filters)
  {
    !Given(filters.search) || SearchHit(e, Lower(filters.search.value))
  }

  predicate CriterionMet(e: Experience, filters: Filters, f: Field)
  {
    !Given(Criterion(filters, f)) || FieldOf(e, f) == Criterion(filters, f).value
  }

  predicate CriteriaMet(e: Experience, filters: Filters, fields: seq<Field>)
  {
    forall i :: 0 <= i < |fields| ==> CriterionMet(e, filters, fields[i])
  }

  predicate Kept(e: Experience, filters: Filters)
  {
    SearchMet(e, filters) && CriteriaMet(e, filters, CriteriaFields)
  }

  /**
   * Which experiences a query selects, stated without the pipeline: the
   * lowercased search text occurs somewhere in the lowercased company, role
   * or location, and every given criterion equals its column exactly.
   */
  ghost predicate Selected(e: Experience, filters: Filters)
  {
    && (Given(filters.search) ==>
          var needle := Lower(filters.search.value);
          || (exists i :: OccursAt(Lower(e.company), needle, i))
          || (exists i :: OccursAt(Lower(e.role), needle, i))
          || (exists i :: OccursAt(Lower(e.location), needle, i)))
    && (Given(filters.company) ==> e.company == filters.company.value)
    && (Given(filters.role) ==> e.role == filters.role.value)
    && (Given(filters.location) ==> e.location == filters.location.value)
    && (Given(filters.interviewType) ==> e.interviewType == filters.interviewType.value)
    && (Given(filters.difficulty) ==> e.difficulty == filters.difficulty.value)
    && (Given(filters.outcome) ==> e.outcome == filters.outcome.value)
  }

  lemma ApplySearchIsFilter(xs: seq<Experience>, filters: Filters)
    ensures ApplySearch(xs, filters.search) == Filter(xs, e => SearchMet(e, filters))
  {
    if Given(filters.search) {
      var needle := Lower(filters.search.value);
      FilterExtensional(xs, e => SearchHit(e, needle), e => SearchMet(e, filters));
    } else {
      FilterKeepsAll(xs, e => SearchMet(e, filters));
    }
  }

  lemma ApplyCriterionIsFilter(xs: seq<Experience>, filters: Filters, f: Field)
    ensures ApplyCriterion(xs, f, Criterion(filters, f)) == Filter(xs, e => CriterionMet(e, filters, f))
  {
    var c := Criterion(filters, f);
    if Given(c) {
      var wanted := c.value;
      FilterExtensional(xs, e => FieldOf(e, f) == wanted, e => CriterionMet(e, filters, f));
    } else {
      FilterKeepsAll(xs, e => CriterionMet(e, filters, f));
    }
  }

  /** The criterion passes, one after another, are one filter by their conjunction. */
  lemma {:induction false} ApplyCriteriaIsFilter(xs: seq<Experience>, filters: Filters, fields: seq<Field>)
    ensures ApplyCriteria(xs, filters, fields) == Filter(xs, e => CriteriaMet(e, filters, fields))
    decreases |fields|
  {
    if |fields| == 0 {
      FilterKeepsAll(xs, e => CriteriaMet(e, filters, fields));
    } else {
      var ys := ApplyCriterion(xs, fields[0], Criterion(filters, fields[0]));
      ApplyCriterionIsFilter(xs, filters, fields[0]);
      ApplyCriteriaIsFilter(ys, filters, fields[1..]);
      forall e
        ensures CriteriaMet(e, filters, fields) == (CriterionMet(e, filters, fields[0]) && CriteriaMet(e, filters, fields[1..]))
      {
        if CriterionMet(e, filters, fields[0]) && CriteriaMet(e, filters, fields[1..]) {
          forall i | 0 <= i < |fields|
            ensures CriterionMet(e, filters, fields[i])
          {
            if i > 0 {
              assert fields[i] == fields[1..][i - 1];
            }
          }
        }
        if CriteriaMet(e, filters, fields) {
          forall i | 0 <= i < |fields| - 1
            ensures CriterionMet(e, filters, fields[1..][i])
          {
            assert fields[1..][i] == fields[i + 1];
          }
        }
      }
      FilterFusion(xs, e => CriterionMet(e, filters, fields[0]), e => CriteriaMet(e, filters, fields[1..]),
                   e => CriteriaMet(e, filters, fields));
    }
  }

  /** The whole pipeline keeps exactly the experiences `Kept` accepts, in fetched order. */
  lemma PipelineIsOneFilter(data: seq<Experience>, filters: Filters)
    ensures GetFilteredExperiences(Fetched(data), filters) == Filter(data, e => Kept(e, filters))
  {
    var s0 := ApplySearch(data, filters.search);
    ApplySearchIsFilter(data, filters);
    ApplyCriteriaIsFilter(s0, filters, CriteriaFields);
    FilterFusion(data, e => SearchMet(e, filters), e => CriteriaMet(e, filters, CriteriaFields),
                 e => Kept(e, filters));
  }

  /** The pipeline's predicate and the stated selection rule agree on every experience. */
  lemma KeptIffSelected(e: Experience, filters: Filters)
    ensures Kept(e, filters) <==> Selected(e, filters)
  {
    if Given(filters.search) {
      var needle := Lower(filters.search.value);
      ContainsIffOccurs(Lower(e.company), needle);
      ContainsIffOccurs(Lower(e.role), needle);
      ContainsIffOccurs(Lower(e.location), needle);
    }
    var fs := CriteriaFields;
    assert CriteriaMet(e, filters, fs) <==>
      CriterionMet(e, filters, fs[0]) && CriterionMet(e, filters, fs[1]) && CriterionMet(e, filters, fs[2]) &&
      CriterionMet(e, filters, fs[3]) && CriterionMet(e, filters, fs[4]) && CriterionMet(e, filters, fs[5]);
  }

  // ----- Properties of getFilteredExperiences -----

  /**
   * An experience is in the result iff it was fetched and the query selects
   * it; a store error leaves nothing.
   */
  lemma FilteredMembership(fetched: Fetch<seq<Experience>>, filters: Filters, e: Experience)
    ensures e in GetFilteredExperiences(fetched, filters) <==>
              fetched.Fetched? && e in fetched.data && Selected(e, filters)
  {
    if fetched.Fetched? {
      PipelineIsOneFilter(fetched.data, filters);
      KeptIffSelected(e, filters);
    }
  }

  /** The result lists fetched experiences in the order they were fetched. */
  lemma FilteredIsSubsequence(data: seq<Experience>, filters: Filters)
    ensures IsSubsequence(GetFilteredExperiences(Fetched(data), filters), data)
  {
    PipelineIsOneFilter(data, filters);
  }

  /** Running the same query over its own result changes nothing. */
  lemma FilteredIdempotent(data: seq<Experience>, filters: Filters)
    ensures var r := GetFilteredExperiences(Fetched(data), filters);
            GetFilteredExperiences(Fetched(r), filters) == r
  {
    var r := GetFilteredExperiences(Fetched(data), filters);
    PipelineIsOneFilter(data, filters);
    PipelineIsOneFilter(r, filters);
    FilterIdempotent(data, e => Kept(e, filters));
  }

  /** With no search text and no criterion the fetched list comes back unchanged. */
  lemma UnfilteredIsIdentity(data: seq<Experience>, filters: Filters)
    requires Unfiltered(filters)
    ensures GetFilteredExperiences(Fetched(data), filters) == data
  {
    PipelineIsOneFilter(data, filters);
    forall e | e in data
      ensures Kept(e, filters)
    {
      KeptIffSelected(e, filters);
      assert !Given(Criterion(filters, Company)) && !Given(Criterion(filters, Role))
        && !Given(Criterion(filters, Location)) && !Given(Criterion(filters, InterviewType))
        && !Given(Criterion(filters, Difficulty)) && !Given(Criterion(filters, Outcome));
    }
    FilterKeepsAll(data, e => Kept(e, filters));
  }

  /**
   * Criteria compare literally: the selector value "all" is not a wildcard
   * but keeps only the experiences whose column is the text "all".
   */
  lemma CriterionIsLiteral(data: seq<Experience>, filters: Filters, f: Field, e: Experience)
    requires Criterion(filters, f) == Some("all")
    requires e in GetFilteredExperiences(Fetched(data), filters)
    ensures FieldOf(e, f) == "all"
  {
    FilteredMembership(Fetched(data), filters, e);
  }

  /** Choosing "all Companies" in the selector sends "all", which drops a "Google" report. */
  lemma AllSentinelExample(e: Experience)
    requires e.company == "Google"
    ensures GetFilteredExperiences(Fetched([e]), Filters(None, Some("all"), None, None, None, None, None)) == []
  {
    var filters := Filters(None, Some("all"), None, None, None, None, None);
    var r := GetFilteredExperiences(Fetched([e]), filters);
    FilteredMembership(Fetched([e]), filters, e);
  }

  /** Searching "google" keeps a "Google Inc" report and drops an "Amazon" one. */
  lemma SearchIsCaseInsensitiveExample(google: Experience, amazon: Experience)
    requires google.company == "Google Inc"
    requires amazon.company == "Amazon" && amazon.role == "SDE" && amazon.location == "Chennai"
    ensures GetFilteredExperiences(Fetched([google, amazon]), Filters(Some("google"), None, None, None, None, None, None))
            == [google]
  {
    var filters := Filters(Some("google"), None, None, None, None, None, None);
    var hit := e => SearchHit(e, Lower("google"));
    GoogleInGoogleInc(google);
    GoogleNotInAmazonRow(amazon);
    assert Filter([google, amazon], hit) == [google] + Filter([amazon], hit);
    assert Filter([amazon], hit) == Filter([], hit);
    assert ApplySearch([google, amazon], filters.search) == [google];
  }

  lemma GoogleInGoogleInc(google: Experience)
    requires google.company == "Google Inc"
    ensures SearchHit(google, Lower("google"))
  {
    assert Lower("google") == "google";
    assert Lower("Google Inc") == "google inc";
    assert StartsWith("google inc", "google");
  }

  lemma GoogleNotInAmazonRow(amazon: Experience)
    requires amazon.company == "Amazon" && amazon.role == "SDE" && amazon.location == "Chennai"
    ensures !SearchHit(amazon, Lower("google"))
  {
    assert Lower("google") == "google";
    assert Lower("Amazon") == "amazon" && Lower("SDE") == "sde" && Lower("Chennai") == "chennai";
    assert "amazon"[1..] == "mazon";
    ShorterNeverContains("mazon", "google");
    ShorterNeverContains("sde", "google");
    assert "chennai"[1..] == "hennai" && "hennai"[1..] == "ennai";
    ShorterNeverContains("ennai", "google");
    FirstCharMismatch("amazon", "google");
    FirstCharMismatch("chennai", "google");
    FirstCharMismatch("hennai", "google");
  }

  // ----- getFilterOptions -----

  /** The six facet lists that populate the filter selectors. */
  datatype FilterOptions = FilterOptions(
    companies: seq<string>,
    roles: seq<string>,
    locations: seq<string>,
    interviewTypes: seq<string>,
    difficulties: seq<string>,
    outcomes: seq<string>)

  function Facet(opts: FilterOptions, f: Field): seq<string>
  {
    match f
    case Company => opts.companies
    case Role => opts.roles
    case Location => opts.locations
    case InterviewType => opts.interviewTypes
    case Difficulty => opts.difficulties
    case Outcome => opts.outcomes
  }

  /** One column of the fetched rows, `experiences.map((e) => e.<field>)`. */
  function Column(data: seq<Experience>, f: Field): (c: seq<string>)
    ensures |c| == |data|
    ensures forall i :: 0 <= i < |data| ==> c[i] == FieldOf(data[i], f)
  {
    seq(|data|, i requires 0 <= i < |data| => FieldOf(data[i], f))
  }

  /**
   * `getFilterOptions`: for each field, the distinct values of that column in
   * first-occurrence order; on a store error, six empty lists.
   */
  function GetFilterOptions(fetched: Fetch<seq<Experience>>): (r: FilterOptions)
    ensures fetched.StoreError? ==> forall f :: Facet(r, f) == []
    ensures forall f :: NoDuplicates(Facet(r, f))
  {
    match fetched
    case StoreError => FilterOptions([], [], [], [], [], [])
    case Fetched(data) =>
      FilterOptions(
        Distinct(Column(data, Company)),
        Distinct(Column(data, Role)),
        Distinct(Column(data, Location)),
        Distinct(Column(data, InterviewType)),
        Distinct(Column(data, Difficulty)),
        Distinct(Column(data, Outcome)))
  }

  lemma FacetIsDistinctColumn(data: seq<Experience>, f: Field)
    ensures Facet(GetFilterOptions(Fetched(data)), f) == Distinct(Column(data, f))
  {
  }

  /** Each value is offered once per field. */
  lemma FacetHasNoDuplicates(fetched: Fetch<seq<Experience>>, f: Field)
    ensures NoDuplicates(Facet(GetFilterOptions(fetched), f))
  {
  }

  /** A value is offered for a field iff some fetched experience has it in that field. */
  lemma FacetMembership(data: seq<Experience>, f: Field, v: string)
    ensures v in Facet(GetFilterOptions(Fetched(data)), f) <==> exists e :: e in data && FieldOf(e, f) == v
  {
    var col := Column(data, f);
    FacetIsDistinctColumn(data, f);
    if v in col {
      var i :| 0 <= i < |col| && col[i] == v;
      assert data[i] in data && FieldOf(data[i], f) == v;
    }
    if e :| e in data && FieldOf(e, f) == v {
      var i :| 0 <= i < |data| && data[i] == e;
      assert col[i] == v;
    }
  }

  /** Offered values appear in the order of their first occurrence among the rows. */
  lemma FacetFirstOccurrenceOrder(data: seq<Experience>, f: Field, i: int, j: int)
    requires 0 <= i < j < |Facet(GetFilterOptions(Fetched(data)), f)|
    ensures var facet := Facet(GetFilterOptions(Fetched(data)), f);
            FirstIndex(Column(data, f), facet[i]) < FirstIndex(Column(data, f), facet[j])
  {
    FacetIsDistinctColumn(data, f);
    DistinctFirstOccurrenceOrder(Column(data, f));
  }

  /** Companies "Google", "Amazon", "Google" give the facet ["Google", "Amazon"]. */
  lemma FacetExample(a: Experience, b: Experience, c: Experience)
    requires a.company == "Google" && b.company == "Amazon" && c.company == "Google"
    ensures GetFilterOptions(Fetched([a, b, c])).companies == ["Google", "Amazon"]
  {
    var col := Column([a, b, c], Company);
    assert col == ["Google", "Amazon", "Google"];
    assert col[..2][..1] == ["Google"];
    assert Distinct(col[..2][..1]) == ["Google"];
    assert col[..2] == ["Google", "Amazon"];
    assert Distinct(col[..2]) == ["Google", "Amazon"];
    assert col[..|col| - 1] == col[..2];
  }

  // ----- likeExperience -----

  /** The reply of the `increment_likes` remote procedure. */
  datatype RpcReply = RpcOk | RpcFailed

  /**
   * `likeExperience`: after the increment, re-read the experience and return
   * `updatedExperience?.likes || null`. An RPC error, a failed re-read and a
   * re-read count of 0 all come back as null.
   */
  function LikeExperience(increment: RpcReply, reread: Option<Experience>): (r: Option<int>)
    ensures r.Some? <==> increment.RpcOk? && reread.Some? && reread.value.likes != 0
    ensures r.Some? ==> r.value == reread.value.likes
  {
    if increment.RpcFailed? then None
    else if reread.None? then None
    else if reread.value.likes == 0 then None
    else Some(reread.value.likes)
  }

  /**
   * When the increment succeeds and the re-read sees the bumped row, the
   * caller gets the old count plus one, never null.
   */
  lemma LikeAfterIncrement(row: Experience)
    requires row.likes >= 0
    ensures LikeExperience(RpcOk, Some(row.(likes := row.likes + 1))) == Some(row.likes + 1)
  {
  }
}
