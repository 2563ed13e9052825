/**
  The complaint form of the user dashboard: the client's department table,
  the keyword classifier that picks a department from the complaint text,
  the two handlers that keep department and e-mail paired, and the checks
  and defaults applied when the form is submitted.
 */
module UserDashboard {
  import opened Common
  import opened Strings
  import SharedApi
  import Validation

  datatype ClientDepartment = ClientDepartment(name: string, email: string)

  const WATER := "Water Management"
  const ROAD := "Road & Safety"
  const HEALTH := "Public Health"
  const POWER := "Electricity Board"
  const SANITATION := "Sanitation"
  const GENERAL := "General Administration"

  /** The dashboard's own `departments` table. */
  const DEPARTMENTS: seq<ClientDepartment> := [
    ClientDepartment(WATER, "admin@water.gov"),
    ClientDepartment(ROAD, "admin@roads.gov"),
    ClientDepartment(HEALTH, "admin@health.gov"),
    ClientDepartment(POWER, "admin@power.gov"),
    ClientDepartment(SANITATION, "admin@sanitation.gov"),
    ClientDepartment(GENERAL, "admin@general.gov")
  ]

  /** `departments[0]`, the text handler's fallback. */
  const FIRST_DEPARTMENT := DEPARTMENTS[0]

  /** The dashboard's table is the shared department table without ids. */
  lemma DepartmentsAreShared()
    ensures |DEPARTMENTS| == |SharedApi.DEPARTMENTS|
    ensures forall i :: 0 <= i < |DEPARTMENTS| ==>
      DEPARTMENTS[i].name == SharedApi.DEPARTMENTS[i].name && DEPARTMENTS[i].email == SharedApi.DEPARTMENTS[i].email
  {
  }

  predicate IsDepartmentName(name: string)
  {
    exists i :: 0 <= i < |DEPARTMENTS| && DEPARTMENTS[i].name == name
  }

  // ---------------------------------------------------------------------------
  // Classifier

  const WATER_WORDS: seq<string> := ["water", "supply", "quality"]
  const ROAD_WORDS: seq<string> := ["road", "traffic", "pothole"]
  const HEALTH_WORDS: seq<string> := ["garbage", "waste", "health"]
  const POWER_WORDS: seq<string> := ["power", "electricity", "outage"]
  const SANITATION_WORDS: seq<string> := ["sewer", "sanitation", "cleaning"]

  /** `l` includes at least one of `words`. */
  predicate MentionsAny(l: string, words: seq<string>)
  {
    exists i :: 0 <= i < |words| && Contains(l, words[i])
  }

  /** `predictCategory`: the lower-cased text is matched against five keyword
      groups in turn, and the first group with a word the text includes
      names the department; with none, General Administration. */
  function PredictCategory(text: string): (r: string)
    ensures IsDepartmentName(r)
  {
    var l := Lower(text);
    if MentionsAny(l, WATER_WORDS) then (assert DEPARTMENTS[0].name == WATER; WATER)
    else if MentionsAny(l, ROAD_WORDS) then (assert DEPARTMENTS[1].name == ROAD; ROAD)
    else if MentionsAny(l, HEALTH_WORDS) then (assert DEPARTMENTS[2].name == HEALTH; HEALTH)
    else if MentionsAny(l, POWER_WORDS) then (assert DEPARTMENTS[3].name == POWER; POWER)
    else if MentionsAny(l, SANITATION_WORDS) then (assert DEPARTMENTS[4].name == SANITATION; SANITATION)
    else (assert DEPARTMENTS[5].name == GENERAL; GENERAL)
  }

  /** A keyword rule: any of `words` selects `name`. */
  datatype Rule = Rule(words: seq<string>, name: string)

  const RULES: seq<Rule> := [
    Rule(WATER_WORDS, WATER), Rule(ROAD_WORDS, ROAD), Rule(HEALTH_WORDS, HEALTH),
    Rule(POWER_WORDS, POWER), Rule(SANITATION_WORDS, SANITATION)
  ]

  /** First-match-wins over a rule list: the name of the first rule one of
      whose words `l` includes, else `fallback`. */
  function FirstRule(rules: seq<Rule>, l: string, fallback: string): string
  {
    if |rules| == 0 then fallback
    else if MentionsAny(l, rules[0].words) then rules[0].name
    else FirstRule(rules[1..], l, fallback)
  }

  /** The classifier is the first matching rule of the table, in table
      order, falling back to General Administration. */
  lemma {:induction false} PredictCategoryIsFirstRule(text: string)
    ensures PredictCategory(text) == FirstRule(RULES, Lower(text), GENERAL)
  {
    var l := Lower(text);
    var tail4 := [Rule(SANITATION_WORDS, SANITATION)];
    var tail3 := [Rule(POWER_WORDS, POWER)] + tail4;
    var tail2 := [Rule(HEALTH_WORDS, HEALTH)] + tail3;
    var tail1 := [Rule(ROAD_WORDS, ROAD)] + tail2;
    assert RULES == [Rule(WATER_WORDS, WATER)] + tail1;
    assert tail4[1..] == [];
    assert FirstRule(tail4, l, GENERAL) == if MentionsAny(l, SANITATION_WORDS) then SANITATION else GENERAL;
    assert FirstRule(tail3, l, GENERAL) == if MentionsAny(l, POWER_WORDS) then POWER else FirstRule(tail4, l, GENERAL);
    assert FirstRule(tail2, l, GENERAL) == if MentionsAny(l, HEALTH_WORDS) then HEALTH else FirstRule(tail3, l, GENERAL);
    assert FirstRule(tail1, l, GENERAL) == if MentionsAny(l, ROAD_WORDS) then ROAD else FirstRule(tail2, l, GENERAL);
    assert FirstRule(RULES, l, GENERAL) == if MentionsAny(l, WATER_WORDS) then WATER else FirstRule(tail1, l, GENERAL);
  }

  /** The classifier ignores case. */
  lemma PredictCategoryIgnoresCase(text: string)
    ensures PredictCategory(Lower(text)) == PredictCategory(text)
  {
    LowerIdempotent(text);
  }

  /** A text with a water word goes to Water Management, whatever else it
      says, since that group is tried first. */
  lemma WaterWordsWin(text: string, w: nat)
    requires w < |WATER_WORDS| && Contains(Lower(text), WATER_WORDS[w])
    ensures PredictCategory(text) == WATER
  {
  }

  const WATER_LEAK := "Water leak on Main St for 3 days"

  /** "Water leak on Main St for 3 days" goes to Water Management. */
  lemma WaterLeakExample()
    ensures PredictCategory(WATER_LEAK) == WATER
  {
    var l := Lower(WATER_LEAK);
    assert l[0] == 'w' && l[1] == 'a' && l[2] == 't' && l[3] == 'e' && l[4] == 'r';
    assert l[..5] == WATER_WORDS[0];
    assert OccursAt(l, WATER_WORDS[0], 0);
  }

  /** The predicted name is always in the table, so the `departments[0]`
      fallback of the text handler never applies. */
  lemma FallbackUnreachable(text: string)
    ensures Find(DEPARTMENTS, (d: ClientDepartment) => d.name == PredictCategory(text)).Some?
  {
  }

  // ---------------------------------------------------------------------------
  // Form handlers

  datatype Form = Form(
    text: string, image: Option<string>, category: string, department: string, departmentEmail: string,
    location: Option<string>, contactNumber: Option<string>)

  /** The form's department and e-mail are an entry of the table. */
  predicate Paired(f: Form)
  {
    exists i :: 0 <= i < |DEPARTMENTS| && DEPARTMENTS[i] == ClientDepartment(f.department, f.departmentEmail)
  }

  /** `handleTextChange`: stores the text and the predicted category, and
      takes department and e-mail from the table entry of that category. */
  function HandleTextChange(f: Form, text: string): (r: Form)
    ensures r.text == text && r.category == PredictCategory(text) && r.department == r.category
    ensures Paired(r)
    ensures r.image == f.image && r.location == f.location && r.contactNumber == f.contactNumber
  {
    var name := PredictCategory(text);
    var d := match Find(DEPARTMENTS, (d: ClientDepartment) => d.name == name)
             case Some(d) => d
             case None => FIRST_DEPARTMENT;
    f.(text := text, category := name, department := d.name, departmentEmail := d.email)
  }

  /** `handleDepartmentChange`: an unknown name leaves the form as it was;
      a known one sets the department and its e-mail and nothing else. */
  function HandleDepartmentChange(f: Form, name: string): (r: Form)
    ensures !IsDepartmentName(name) ==> r == f
    ensures IsDepartmentName(name) ==> r == f.(department := name, departmentEmail := r.departmentEmail) && Paired(r)
  {
    match Find(DEPARTMENTS, (d: ClientDepartment) => d.name == name)
    case None => f
    case Some(d) => f.(department := name, departmentEmail := d.email)
  }

  /** Both handlers keep the department and e-mail paired. */
  lemma HandlersKeepPaired(f: Form, text: string, name: string)
    requires Paired(f)
    ensures Paired(HandleTextChange(f, text))
    ensures Paired(HandleDepartmentChange(f, name))
  {
  }

  // ---------------------------------------------------------------------------
  // Submission

  /** What the page reads from the stored user: its name and its id. */
  datatype LocalUser = LocalUser(name: Option<string>, id: Option<nat>)

  datatype ComplaintData = ComplaintData(
    text: string, category: string, department: string, departmentEmail: string,
    submittedBy: string, userId: nat, location: string, contactNumber: string)

  datatype Submission = Refused(message: string) | Submitted(data: ComplaintData)

  const DESCRIBE := "Please describe your complaint."
  const ANONYMOUS := "Anonymous User"

  /** `handleSubmit`: refuses a text that is empty once trimmed; otherwise
      sends the trimmed text with the form's department, `submittedBy` the
      stored name or "Anonymous User", `userId` the stored id or 1, and empty
      location and contact number when unset. */
  function HandleSubmit(f: Form, user: LocalUser): (r: Submission)
    ensures r.Refused? <==> forall i :: 0 <= i < |f.text| ==> IsSpace(f.text[i])
    ensures r.Refused? ==> r.message == DESCRIBE
    ensures r.Submitted? ==> |r.data.text| > 0 && !IsSpace(r.data.text[0]) && !IsSpace(r.data.text[|r.data.text| - 1])
    ensures r.Submitted? ==> exists i :: TrimmedAt(f.text, r.data.text, i)
    ensures r.Submitted? ==> r.data.category == f.category && r.data.department == f.department
                             && r.data.departmentEmail == f.departmentEmail
    ensures r.Submitted? ==> r.data.submittedBy == (if SharedApi.IsTruthy(user.name) then user.name.value else ANONYMOUS)
    ensures r.Submitted? ==> r.data.userId == (if user.id.Some? && user.id.value != 0 then user.id.value else 1) && r.data.userId > 0
    ensures r.Submitted? ==> r.data.location == (if SharedApi.IsTruthy(f.location) then f.location.value else "")
    ensures r.Submitted? ==> r.data.contactNumber == (if SharedApi.IsTruthy(f.contactNumber) then f.contactNumber.value else "")
  {
    TrimEmptyIffAllSpace(f.text);
    var text := Trim(f.text);
    if |text| == 0 then Refused(DESCRIBE) else Submitted(Payload(text, f, user))
  }

  /** The record sent for an accepted text: the form's fields, the stored
      name or "Anonymous User", the stored id or 1, and "" for an unset
      location or contact number. */
  function Payload(text: string, f: Form, user: LocalUser): (d: ComplaintData)
    ensures d.text == text
    ensures d.category == f.category && d.department == f.department && d.departmentEmail == f.departmentEmail
    ensures d.submittedBy == (if SharedApi.IsTruthy(user.name) then user.name.value else ANONYMOUS)
    ensures d.userId == (if user.id.Some? && user.id.value != 0 then user.id.value else 1) && d.userId > 0
    ensures d.location == (if SharedApi.IsTruthy(f.location) then f.location.value else "")
    ensures d.contactNumber == (if SharedApi.IsTruthy(f.contactNumber) then f.contactNumber.value else "")
  {
    ComplaintData(
      text, f.category, f.department, f.departmentEmail,
      if SharedApi.IsTruthy(user.name) then user.name.value else ANONYMOUS,
      if user.id.Some? && user.id.value != 0 then user.id.value else 1,
      if SharedApi.IsTruthy(f.location) then f.location.value else "",
      if SharedApi.IsTruthy(f.contactNumber) then f.contactNumber.value else "")
  }

  /** The form accepts texts the server then refuses: any text of one to
      nine characters once trimmed is sent, and the server's creation
      validator refuses it. */
  lemma ShortTextPassesFormNotServer(f: Form, user: LocalUser)
    requires 0 < |Trim(f.text)| < 10
    ensures HandleSubmit(f, user).Submitted?
    ensures var d := HandleSubmit(f, user).data;
      Validation.ValidateComplaintCreation(Validation.CreationBody(
        Some(d.text), Some(d.category), Some(d.department), Some(d.departmentEmail))).Refuse?
  {
    TrimIdempotent(f.text);
  }
}
