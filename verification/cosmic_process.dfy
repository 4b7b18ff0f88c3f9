/** COSMIC functional processes as the analysis, import and export paths
    hand them over: each process has a trigger event, a name and at least one
    sub-process step, and each step a description, a data movement type out
    of E, R, W and X, a data group and data attributes. Sanitising trims every
    text, upper-cases the movement type and rejects the first incomplete
    process or step with a message naming it. */
module CosmicProcesses {

  import opened Results
  import opened Text

  /** A sub-process step. A null text is modelled as the empty string, which
      `trimToEmpty` would produce anyway. */
  datatype Step = Step(subProcessDesc: string, dataMovementType: string, dataGroup: string, dataAttributes: string)

  datatype Process = Process(triggerEvent: string, functionalProcess: string, steps: seq<Step>)

  /** The supported data movement types: Entry, Read, Write, eXit. */
  predicate IsMovementType(s: string) {
    s == "E" || s == "R" || s == "W" || s == "X"
  }

  /** `String.format("%d", n)`. */
  function Ordinal(index: nat): string {
    NatToString(index + 1)
  }

  // ---------------------------------------------------------------------------
  // Steps
  // ---------------------------------------------------------------------------

  function InvalidMovementMessage(value: string, functionalProcess: string, stepIndex: nat): string {
    "功能过程 \"" + functionalProcess + "\" 的第 " + Ordinal(stepIndex) + " 个子过程数据移动类型无效: " + value
  }

  /** The movement type trimmed and upper-cased; anything but E, R, W or X is
      rejected with a message quoting the raw value. */
  function NormalizeMovementType(value: string, functionalProcess: string, stepIndex: nat): (r: Result<string>)
    ensures r.Ok? <==> IsMovementType(Upper(JavaTrim(value)))
    ensures r.Ok? ==> IsMovementType(r.value) && EqualsIgnoreCase(r.value, JavaTrim(value))
    ensures r.Err? ==> r.error == InvalidMovementMessage(value, functionalProcess, stepIndex)
  {
    var normalized := Upper(JavaTrim(value));
    if !IsMovementType(normalized) then Err(InvalidMovementMessage(value, functionalProcess, stepIndex))
    else
      UpperIdempotent(JavaTrim(value));
      Ok(normalized)
  }

  /** Normalising an accepted movement type again gives it back unchanged. */
  lemma MovementTypeIdempotent(value: string, functionalProcess: string, stepIndex: nat)
    requires NormalizeMovementType(value, functionalProcess, stepIndex).Ok?
    ensures var m := NormalizeMovementType(value, functionalProcess, stepIndex).value;
            NormalizeMovementType(m, functionalProcess, stepIndex) == Ok(m)
  {
    var m := NormalizeMovementType(value, functionalProcess, stepIndex).value;
    Unpadded(m);
  }

  function MissingDescMessage(functionalProcess: string, stepIndex: nat): string {
    "功能过程 \"" + functionalProcess + "\" 的第 " + Ordinal(stepIndex) + " 个子过程描述为空"
  }

  /** A step as sanitising leaves it: every text trimmed, a description with
      text, and a supported movement type. */
  predicate CleanStep(s: Step) {
    HasText(s.subProcessDesc) && JavaTrim(s.subProcessDesc) == s.subProcessDesc
    && IsMovementType(s.dataMovementType)
    && JavaTrim(s.dataGroup) == s.dataGroup && JavaTrim(s.dataAttributes) == s.dataAttributes
  }

  /** The description must have text and the movement type must be supported,
      checked in that order; data group and attributes are only trimmed. */
  function SanitizeStep(step: Step, functionalProcess: string, stepIndex: nat): (r: Result<Step>)
    ensures r.Ok? <==> HasText(JavaTrim(step.subProcessDesc)) && IsMovementType(Upper(JavaTrim(step.dataMovementType)))
    ensures !HasText(JavaTrim(step.subProcessDesc)) ==> r == Err(MissingDescMessage(functionalProcess, stepIndex))
    ensures r.Ok? ==> CleanStep(r.value)
    ensures r.Ok? ==> r.value.subProcessDesc == JavaTrim(step.subProcessDesc)
                      && EqualsIgnoreCase(r.value.dataMovementType, JavaTrim(step.dataMovementType))
                      && r.value.dataGroup == JavaTrim(step.dataGroup)
                      && r.value.dataAttributes == JavaTrim(step.dataAttributes)
  {
    var desc := JavaTrim(step.subProcessDesc);
    if !HasText(desc) then Err(MissingDescMessage(functionalProcess, stepIndex))
    else
      var movement :- NormalizeMovementType(step.dataMovementType, functionalProcess, stepIndex);
      JavaTrimIdempotent(step.subProcessDesc);
      JavaTrimIdempotent(step.dataGroup);
      JavaTrimIdempotent(step.dataAttributes);
      Ok(Step(desc, movement, JavaTrim(step.dataGroup), JavaTrim(step.dataAttributes)))
  }

  /** A clean step is its own sanitised form. */
  lemma CleanStepFixed(step: Step, functionalProcess: string, stepIndex: nat)
    requires CleanStep(step)
    ensures SanitizeStep(step, functionalProcess, stepIndex) == Ok(step)
  {
    Unpadded(step.dataMovementType);
  }

  predicate AllClean(steps: seq<Step>) {
    forall j :: 0 <= j < |steps| ==> CleanStep(steps[j])
  }

  /** `SanitizeStep` for the steps of one process. */
  function StepSanitizer(functionalProcess: string): (Step, nat) -> Result<Step> {
    (s: Step, j: nat) => SanitizeStep(s, functionalProcess, j)
  }

  /** Every step of a process, sanitised in order; the first bad step decides the error. */
  function SanitizeSteps(steps: seq<Step>, functionalProcess: string): (r: Result<seq<Step>>)
    ensures r.Ok? <==> forall j :: 0 <= j < |steps| ==> SanitizeStep(steps[j], functionalProcess, j).Ok?
    ensures r.Ok? ==> |r.value| == |steps| && AllClean(r.value)
    ensures r.Ok? ==> forall j :: 0 <= j < |steps| ==> r.value[j] == SanitizeStep(steps[j], functionalProcess, j).value
  {
    var r := MapIndexed(steps, StepSanitizer(functionalProcess), 0);
    if r.Ok? then
      forall j | 0 <= j < |steps|
        ensures CleanStep(r.value[j])
      {
        assert r.value[j] == SanitizeStep(steps[j], functionalProcess, j).value;
      }
      r
    else r
  }

  /** Clean steps are kept as they are. */
  lemma CleanStepsFixed(steps: seq<Step>, functionalProcess: string)
    requires AllClean(steps)
    ensures SanitizeSteps(steps, functionalProcess) == Ok(steps)
  {
    var f := StepSanitizer(functionalProcess);
    forall j | 0 <= j < |steps| ensures f(steps[j], j) == Ok(steps[j]) {
      CleanStepFixed(steps[j], functionalProcess, j);
    }
    MapIndexedFixed(steps, f, 0);
    assert steps[0..] == steps;
  }

  // ---------------------------------------------------------------------------
  // Processes
  // ---------------------------------------------------------------------------

  function MissingTriggerMessage(index: nat): string {
    "第 " + Ordinal(index) + " 个功能过程缺少触发事件"
  }

  function MissingNameMessage(index: nat): string {
    "第 " + Ordinal(index) + " 个功能过程缺少功能过程名称"
  }

  function MissingStepsMessage(functionalProcess: string): string {
    "功能过程 \"" + functionalProcess + "\" 缺少子过程步骤"
  }

  /** A process as sanitising leaves it. */
  predicate CleanProcess(p: Process) {
    HasText(p.triggerEvent) && JavaTrim(p.triggerEvent) == p.triggerEvent
    && HasText(p.functionalProcess) && JavaTrim(p.functionalProcess) == p.functionalProcess
    && p.steps != [] && AllClean(p.steps)
  }

  /** The process at position `index`: trigger, then name, then a non-empty
      step list, then every step. */
  function SanitizeProcess(p: Process, index: nat): (r: Result<Process>)
    ensures !HasText(JavaTrim(p.triggerEvent)) ==> r == Err(MissingTriggerMessage(index))
    ensures HasText(JavaTrim(p.triggerEvent)) && !HasText(JavaTrim(p.functionalProcess))
            ==> r == Err(MissingNameMessage(index))
    ensures HasText(JavaTrim(p.triggerEvent)) && HasText(JavaTrim(p.functionalProcess)) && p.steps == []
            ==> r == Err(MissingStepsMessage(JavaTrim(p.functionalProcess)))
    ensures r.Ok? ==> CleanProcess(r.value) && |r.value.steps| == |p.steps|
                      && r.value.triggerEvent == JavaTrim(p.triggerEvent)
                      && r.value.functionalProcess == JavaTrim(p.functionalProcess)
    ensures r.Ok? ==> SanitizeSteps(p.steps, r.value.functionalProcess) == Ok(r.value.steps)
  {
    var trigger := JavaTrim(p.triggerEvent);
    if !HasText(trigger) then Err(MissingTriggerMessage(index))
    else
      var name := JavaTrim(p.functionalProcess);
      if !HasText(name) then Err(MissingNameMessage(index))
      else if p.steps == [] then Err(MissingStepsMessage(name))
      else
        var steps :- SanitizeSteps(p.steps, name);
        JavaTrimIdempotent(p.triggerEvent);
        JavaTrimIdempotent(p.functionalProcess);
        Ok(Process(trigger, name, steps))
  }

  /** `qs` is `ps` sanitised: the same length, every process clean and with
      as many steps as the original. */
  predicate SanitizedLike(ps: seq<Process>, qs: seq<Process>) {
    |qs| == |ps| && forall i :: 0 <= i < |ps| ==> CleanProcess(qs[i]) && |qs[i].steps| == |ps[i].steps|
  }

  const EMPTY_PROCESSES: string := "COSMIC过程列表不能为空"

  /** An empty list is rejected; otherwise every process is sanitised, the
      list keeps its length and every process keeps its number of steps. */
  function SanitizeProcesses(ps: seq<Process>): (r: Result<seq<Process>>)
    ensures ps == [] ==> r == Err(EMPTY_PROCESSES)
    ensures r.Ok? <==> ps != [] && forall i :: 0 <= i < |ps| ==> SanitizeProcess(ps[i], i).Ok?
    ensures r.Ok? ==> SanitizedLike(ps, r.value)
    ensures r.Ok? ==> forall i :: 0 <= i < |ps| ==> r.value[i] == SanitizeProcess(ps[i], i).value
  {
    if ps == [] then Err(EMPTY_PROCESSES)
    else
      var r := MapIndexed(ps, SanitizeProcess, 0);
      if r.Ok? then
        assert forall i :: 0 <= i < |ps| ==> r.value[i] == SanitizeProcess(ps[i], i).value;
        r
      else r
  }

  /** The first bad process, or its first bad step, decides the error. */
  lemma FirstErrorWins(ps: seq<Process>)
    requires ps != [] && SanitizeProcesses(ps).Err?
    ensures exists i :: 0 <= i < |ps| && SanitizeProcess(ps[i], i) == Err(SanitizeProcesses(ps).error)
                        && forall k :: 0 <= k < i ==> SanitizeProcess(ps[k], k).Ok?
  {
    MapIndexedFirstFailure(ps, SanitizeProcess, 0);
  }

  /** A clean process is its own sanitised form. */
  lemma CleanProcessFixed(p: Process, index: nat)
    requires CleanProcess(p)
    ensures SanitizeProcess(p, index) == Ok(p)
  {
    CleanStepsFixed(p.steps, p.functionalProcess);
  }

  /** A non-empty list of clean processes passes unchanged. */
  lemma CleanProcessesFixed(ps: seq<Process>)
    requires ps != [] && forall i :: 0 <= i < |ps| ==> CleanProcess(ps[i])
    ensures SanitizeProcesses(ps) == Ok(ps)
  {
    forall i | 0 <= i < |ps| ensures SanitizeProcess(ps[i], i) == Ok(ps[i]) {
      CleanProcessFixed(ps[i], i);
    }
    MapIndexedFixed(ps, SanitizeProcess, 0);
    assert ps[0..] == ps;
  }

  /** Sanitising is idempotent: the output of a successful run passes again unchanged. */
  lemma SanitizeIdempotent(ps: seq<Process>)
    requires SanitizeProcesses(ps).Ok?
    ensures SanitizeProcesses(SanitizeProcesses(ps).value) == SanitizeProcesses(ps)
  {
    CleanProcessesFixed(SanitizeProcesses(ps).value);
  }

  // ---------------------------------------------------------------------------
  // Mermaid diagrams
  // ---------------------------------------------------------------------------

  const SEQUENCE_DIAGRAM: string := "sequencediagram"

  /** A generated diagram must have text; it is trimmed and must mention
      `sequenceDiagram` in any letter case. */
  function NormalizeMermaidDiagram(raw: string): (r: Result<string>)
    ensures r.Ok? <==> HasText(raw) && Contains(Lower(JavaTrim(raw)), SEQUENCE_DIAGRAM)
    ensures r.Ok? ==> r.value == JavaTrim(raw) && JavaTrim(r.value) == r.value
  {
    if !HasText(raw) then Err("AI 未返回时序图内容")
    else
      var trimmed := JavaTrim(raw);
      if !Contains(Lower(trimmed), SEQUENCE_DIAGRAM) then Err("AI 输出不包含 Mermaid sequenceDiagram 片段")
      else
        JavaTrimIdempotent(raw);
        Ok(trimmed)
  }

  lemma MentionHasText(d: string)
    requires Contains(Lower(d), SEQUENCE_DIAGRAM)
    ensures HasText(d)
  {
    var k :| 0 <= k <= |Lower(d)| - |SEQUENCE_DIAGRAM| && OccursAt(Lower(d), SEQUENCE_DIAGRAM, k);
    assert SEQUENCE_DIAGRAM[0] == 's';
    assert Lower(d)[k] == 's';
    assert !IsJavaWhitespace(d[k]);
  }

  /** An accepted diagram is accepted again unchanged. */
  lemma MermaidIdempotent(raw: string)
    requires NormalizeMermaidDiagram(raw).Ok?
    ensures NormalizeMermaidDiagram(NormalizeMermaidDiagram(raw).value) == NormalizeMermaidDiagram(raw)
  {
    var d := NormalizeMermaidDiagram(raw).value;
    JavaTrimIdempotent(raw);
    assert Contains(Lower(JavaTrim(d)), SEQUENCE_DIAGRAM);
    MentionHasText(d);
  }
}
