/** The permission guard ChatBI applies to a proposed plan before it is
    validated: administrators may query everything; any other user is held to
    their own tasks, either by a forced `ASSIGNEE_ID = <own id>` filter or,
    when the question or plan reaches across people, by turning the plan into
    a clarifying question. */
module ChatBiGuard {

  import opened Results
  import opened Text
  import opened ChatBiPlan

  /** The signed-in user; `id` is absent for a user record without one. */
  datatype User = User(id: Option<int>, role: string)

  datatype GuardResult = GuardResult(allowExecute: bool, plan: QueryPlan)

  const ASSIGNEE_ID: string := "ASSIGNEE_ID"

  const CLARIFY_OWN_TASKS: string := "你是普通用户，我只能查询你自己的任务。要改为查询“我的任务”相关统计吗？"

  /** Question words that ask about several people. */
  const CROSS_PERSON_WORDS: seq<string> := ["多少人", "每个人", "所有人", "全员", "大家", "人员"]

  predicate IsAdmin(u: User) {
    EqualsIgnoreCase("ADMIN", u.role)
  }

  /** A raw string with text, trimmed; absent when blank. */
  function Normalize(v: string): Option<string> {
    if HasText(v) then Some(JavaTrim(v)) else None
  }

  /** A raw string with text, trimmed and upper-cased; empty when blank. */
  function NormalizeUpper(v: string): string {
    if HasText(v) then Upper(JavaTrim(v)) else ""
  }

  predicate IsAssigneeFilter(f: Filter) {
    Normalize(f.field) == Some(ASSIGNEE_ID)
  }

  /** An `ASSIGNEE_ID` filter with operator EQ: the kind that decides the scope. */
  predicate IsScopeCandidate(f: Filter) {
    IsAssigneeFilter(f) && NormalizeUpper(f.op) == "EQ"
  }

  /** `i` is the first scope candidate of `fs`. */
  predicate FirstCandidateAt(fs: seq<Filter>, i: int) {
    0 <= i < |fs| && IsScopeCandidate(fs[i]) && forall j :: 0 <= j < i ==> !IsScopeCandidate(fs[j])
  }

  /** Whether the plan already limits itself to the user's own tasks: the first
      `ASSIGNEE_ID` EQ filter decides, and it must carry the user's id. */
  function HasAssigneeScope(fs: seq<Filter>, userId: int): bool {
    if fs == [] then false
    else if IsScopeCandidate(fs[0]) then Normalize(fs[0].value) == Some(IntToString(userId))
    else HasAssigneeScope(fs[1..], userId)
  }

  /** The scan decides on the first candidate, and only on it. */
  lemma {:induction false} ScopeDecidedByFirstCandidate(fs: seq<Filter>, userId: int)
    ensures HasAssigneeScope(fs, userId) <==>
              exists i :: FirstCandidateAt(fs, i) && Normalize(fs[i].value) == Some(IntToString(userId))
    decreases |fs|
  {
    var id := IntToString(userId);
    if fs != [] {
      if IsScopeCandidate(fs[0]) {
        assert FirstCandidateAt(fs, 0);
      } else {
        ScopeDecidedByFirstCandidate(fs[1..], userId);
        if HasAssigneeScope(fs, userId) {
          var k :| FirstCandidateAt(fs[1..], k) && Normalize(fs[1..][k].value) == Some(id);
          CandidateShift(fs, k + 1);
        } else {
          forall i | FirstCandidateAt(fs, i) ensures Normalize(fs[i].value) != Some(id) {
            CandidateShift(fs, i);
          }
        }
      }
    }
  }

  lemma CandidateShift(fs: seq<Filter>, i: int)
    requires 1 <= i < |fs| && !IsScopeCandidate(fs[0])
    ensures FirstCandidateAt(fs, i) <==> FirstCandidateAt(fs[1..], i - 1)
    ensures fs[i] == fs[1..][i - 1]
  {
    assert forall j :: 1 <= j < |fs| ==> fs[j] == fs[1..][j - 1];
  }

  /** A dimension whose trimmed field is `code`. */
  predicate HasDimension(ds: seq<Dimension>, code: string) {
    exists i :: 0 <= i < |ds| && Normalize(ds[i].field) == Some(code)
  }

  /** A measure counting distinct assignees. */
  predicate CountsAssignees(ms: seq<Measure>) {
    exists i :: 0 <= i < |ms| && NormalizeUpper(ms[i].agg) == "COUNT_DISTINCT"
                && Normalize(ms[i].field) == Some(ASSIGNEE_ID)
  }

  /** The trimmed question mentions one of the cross-person words. */
  predicate AsksAboutPeople(question: string) {
    HasText(question)
    && exists w :: 0 <= w < |CROSS_PERSON_WORDS| && Contains(JavaTrim(question), CROSS_PERSON_WORDS[w])
  }

  /** The plan groups or counts by person, or the question asks about people. */
  predicate LooksCrossPerson(question: string, p: QueryPlan) {
    HasDimension(p.dimensions, ASSIGNEE_ID) || HasDimension(p.dimensions, "ASSIGNEE_NAME")
    || CountsAssignees(p.measures) || AsksAboutPeople(question)
  }

  /** The filter the guard appends. */
  function ScopeFilter(userId: int): Filter {
    Filter(ASSIGNEE_ID, "EQ", IntToString(userId), [], "", "")
  }

  /** The filters that do not name ASSIGNEE_ID, in their original order. */
  function Retained(fs: seq<Filter>): (r: seq<Filter>)
    ensures |r| <= |fs|
    ensures forall i :: 0 <= i < |r| ==> !IsAssigneeFilter(r[i])
    ensures forall i :: 0 <= i < |r| ==> r[i] in fs
    ensures forall i :: 0 <= i < |fs| && !IsAssigneeFilter(fs[i]) ==> fs[i] in r
  {
    if fs == [] then []
    else
      var rest := Retained(fs[1..]);
      assert forall i :: 1 <= i < |fs| ==> fs[i] == fs[1..][i - 1];
      if IsAssigneeFilter(fs[0]) then rest else [fs[0]] + rest
  }

  /** Filtering twice is filtering once; a list without ASSIGNEE_ID filters is kept whole. */
  lemma {:induction false} RetainedKeepsClean(fs: seq<Filter>)
    requires forall i :: 0 <= i < |fs| ==> !IsAssigneeFilter(fs[i])
    ensures Retained(fs) == fs
    decreases |fs|
  {
    if fs != [] {
      RetainedKeepsClean(fs[1..]);
    }
  }

  /** Retaining over a concatenation retains each part in turn, so the kept
      filters stay in the order the plan gave them. */
  lemma {:induction false} RetainedConcat(a: seq<Filter>, b: seq<Filter>)
    ensures Retained(a + b) == Retained(a) + Retained(b)
    decreases |a|
  {
    if a == [] {
      assert a + b == b;
    } else {
      assert (a + b)[1..] == a[1..] + b;
      RetainedConcat(a[1..], b);
    }
  }

  /** One filter is kept exactly when it does not name ASSIGNEE_ID. */
  lemma RetainedOne(f: Filter)
    ensures Retained([f]) == if IsAssigneeFilter(f) then [] else [f]
  {
    assert [f][1..] == [];
  }

  /** The scoped filter list: every ASSIGNEE_ID filter is dropped, the others
      keep their order, and exactly one `ASSIGNEE_ID EQ <user id>` is
      appended. */
  function EnforceScope(fs: seq<Filter>, userId: int): (r: seq<Filter>)
    ensures |r| >= 1 && r[|r| - 1] == ScopeFilter(userId)
    ensures r[..|r| - 1] == Retained(fs)
    ensures forall i :: 0 <= i < |r| - 1 ==> !IsAssigneeFilter(r[i])
  {
    Retained(fs) + [ScopeFilter(userId)]
  }

  lemma ScopeFilterShape(userId: int)
    ensures IsAssigneeFilter(ScopeFilter(userId)) && IsScopeCandidate(ScopeFilter(userId))
    ensures Normalize(ScopeFilter(userId).value) == Some(IntToString(userId))
  {
    Unpadded(ASSIGNEE_ID);
    Unpadded("EQ");
    assert Upper("EQ") == "EQ";
    RenderedUnpadded(userId);
  }

  /** A scoped list already carries the user's scope, and scoping it again
      changes nothing. */
  lemma ScopeStable(fs: seq<Filter>, userId: int)
    ensures HasAssigneeScope(EnforceScope(fs, userId), userId)
    ensures EnforceScope(EnforceScope(fs, userId), userId) == EnforceScope(fs, userId)
  {
    var r := EnforceScope(fs, userId);
    ScopeFilterShape(userId);
    assert forall i :: 0 <= i < |r| - 1 ==> !IsScopeCandidate(r[i]);
    assert FirstCandidateAt(r, |r| - 1);
    ScopeDecidedByFirstCandidate(r, userId);
    RetainedAppend(Retained(fs), ScopeFilter(userId));
    RetainedKeepsClean(Retained(fs));
  }

  lemma RetainedAppend(fs: seq<Filter>, f: Filter)
    requires IsAssigneeFilter(f)
    ensures Retained(fs + [f]) == Retained(fs)
    decreases |fs|
  {
    if fs == [] {
      assert Retained([f]) == [] + Retained([]) by {
        assert [f][1..] == [];
      }
    } else {
      RetainedAppend(fs[1..], f);
      assert (fs + [f])[1..] == fs[1..] + [f];
    }
  }

  /** The guard. Administrators pass unchanged; for anyone else a plan without
      the user's own scope that looks across people becomes a clarifying
      question, and every other plan is scoped to the user. */
  function Guard(user: User, question: string, plan: Option<QueryPlan>): (r: Result<GuardResult>)
    ensures plan.None? ==> r.Err?
    ensures plan.Some? && IsAdmin(user) ==> r == Ok(GuardResult(true, plan.value))
    ensures plan.Some? && !IsAdmin(user) && user.id.None? ==> r.Err?
    ensures r.Ok? && !IsAdmin(user) ==>
              user.id.Some?
              && (r.value.allowExecute <==>
                    HasAssigneeScope(plan.value.filters, user.id.value) || !LooksCrossPerson(question, plan.value))
    ensures r.Ok? && !r.value.allowExecute ==>
              Clarifying(r.value.plan) && HasText(r.value.plan.clarifyingQuestion)
              && r.value.plan.dataset == plan.value.dataset
              && r.value.plan.measures == [] && r.value.plan.filters == []
    ensures r.Ok? && r.value.allowExecute && !IsAdmin(user) ==>
              r.value.plan == plan.value.(filters := EnforceScope(plan.value.filters, user.id.value))
  {
    if plan.None? then Err("查询计划为空")
    else
      var p := plan.value;
      if IsAdmin(user) then Ok(GuardResult(true, p))
      else if user.id.None? then Err("当前用户ID为空")
      else
        var userId := user.id.value;
        if !HasAssigneeScope(p.filters, userId) && LooksCrossPerson(question, p) then
          assert HasText(CLARIFY_OWN_TASKS) by {
            assert !IsJavaWhitespace(CLARIFY_OWN_TASKS[0]);
          }
          Ok(GuardResult(false, QueryPlan(p.dataset, Some(true), CLARIFY_OWN_TASKS, [], [], [], [], None)))
        else
          Ok(GuardResult(true, p.(filters := EnforceScope(p.filters, userId))))
  }

  /** Guarding an already guarded plan of the same user changes nothing. */
  lemma GuardIdempotent(user: User, question: string, plan: QueryPlan)
    requires Guard(user, question, Some(plan)).Ok?
    requires Guard(user, question, Some(plan)).value.allowExecute
    ensures Guard(user, question, Some(Guard(user, question, Some(plan)).value.plan))
            == Guard(user, question, Some(plan))
  {
    if !IsAdmin(user) {
      ScopeStable(plan.filters, user.id.value);
    }
  }
}
