/**
 From a document's text to a review queue: keyword classification, admissibility
 review, risk score, queue.  The text arrives already lower-cased, and scores
 are exact decimals.
 */
module Ingestion {
  import opened Options
  import opened Text

  datatype DocumentType =
    | ApplicationForm | SitePlan | EffluentCharacterization | MitigationPlan | PublicConsultationRecord
    | WasteProfile | ContingencyPlan | ClosurePlan | HydrogeologyReport | WaterBalance | ImpactAssessment

  function Name(t: DocumentType): string {
    match t
    case ApplicationForm => "application_form"
    case SitePlan => "site_plan"
    case EffluentCharacterization => "effluent_characterization"
    case MitigationPlan => "mitigation_plan"
    case PublicConsultationRecord => "public_consultation_record"
    case WasteProfile => "waste_profile"
    case ContingencyPlan => "contingency_plan"
    case ClosurePlan => "closure_plan"
    case HydrogeologyReport => "hydrogeology_report"
    case WaterBalance => "water_balance"
    case ImpactAssessment => "impact_assessment"
  }

  function LabelName(docLabel: Option<DocumentType>): string {
    if docLabel.Some? then Name(docLabel.value) else "uncategorized"
  }

  datatype TypeKeywords = TypeKeywords(documentType: DocumentType, keywords: seq<string>)

  const KeywordTable: seq<TypeKeywords> := [
    TypeKeywords(ApplicationForm, ["application", "form"]),
    TypeKeywords(SitePlan, ["site plan", "drawing"]),
    TypeKeywords(EffluentCharacterization, ["effluent", "characterization"]),
    TypeKeywords(MitigationPlan, ["mitigation"]),
    TypeKeywords(PublicConsultationRecord, ["consultation"]),
    TypeKeywords(WasteProfile, ["waste profile"]),
    TypeKeywords(ContingencyPlan, ["contingency"]),
    TypeKeywords(ClosurePlan, ["closure"]),
    TypeKeywords(HydrogeologyReport, ["hydrogeology"]),
    TypeKeywords(WaterBalance, ["water balance"]),
    TypeKeywords(ImpactAssessment, ["impact assessment"])]

  // -- Classification -------------------------------------------------------

  function KeywordCount(text: string, keywords: seq<string>): nat {
    if keywords == [] then 0
    else KeywordCount(text, keywords[..|keywords| - 1]) + if Contains(text, keywords[|keywords| - 1]) then 1 else 0
  }

  // The label is the first entry with the maximal count, if that is positive;
  // None stands for "uncategorized".
  ghost predicate IsLabel(table: seq<TypeKeywords>, text: string, docLabel: Option<DocumentType>, score: nat) {
    && (forall j :: 0 <= j < |table| ==> KeywordCount(text, table[j].keywords) <= score)
    && (docLabel == None <==> score == 0)
    && (docLabel.Some? ==> exists i :: FirstBest(table, text, docLabel.value, score, i))
  }

  ghost predicate FirstBest(table: seq<TypeKeywords>, text: string, docLabel: DocumentType, score: nat, i: int) {
    && 0 <= i < |table| && table[i].documentType == docLabel && KeywordCount(text, table[i].keywords) == score
    && forall j :: 0 <= j < i ==> KeywordCount(text, table[j].keywords) < score
  }

  method Classify(table: seq<TypeKeywords>, text: string) returns (docLabel: Option<DocumentType>, score: nat)
    ensures IsLabel(table, text, docLabel, score)
  {
    docLabel, score := None, 0;
    for n := 0 to |table|
      invariant IsLabel(table[..n], text, docLabel, score)
    {
      var count := 0;
      for k := 0 to |table[n].keywords|
        invariant count == KeywordCount(text, table[n].keywords[..k])
      {
        assert table[n].keywords[..k + 1][..k] == table[n].keywords[..k];
        if Contains(text, table[n].keywords[k]) {
          count := count + 1;
        }
      }
      assert table[n].keywords[..|table[n].keywords|] == table[n].keywords;
      if count > score {
        docLabel, score := Some(table[n].documentType), count;
        assert FirstBest(table[..n + 1], text, table[n].documentType, count, n);
      } else if docLabel.Some? {
        ghost var i :| FirstBest(table[..n], text, docLabel.value, score, i);
        assert FirstBest(table[..n + 1], text, docLabel.value, score, i);
      }
    }
    assert table[..|table|] == table;
  }

  // The specification leaves no choice.
  lemma {:induction false} LabelIsUnique(table: seq<TypeKeywords>, text: string,
      a: Option<DocumentType>, m: nat, b: Option<DocumentType>, n: nat)
    requires IsLabel(table, text, a, m) && IsLabel(table, text, b, n)
    ensures a == b && m == n
  {
    if a.Some? && b.Some? {
      var i :| FirstBest(table, text, a.value, m, i);
      var j :| FirstBest(table, text, b.value, n, j);
      assert i <= j && j <= i;
    }
  }

  // -- Review ---------------------------------------------------------------

  datatype Project = IndustrialDischarge | WasteManagement | WaterTaking | Other

  function ProjectNamed(projectType: string): Project {
    if projectType == "industrial_discharge" then IndustrialDischarge
    else if projectType == "waste_management" then WasteManagement
    else if projectType == "water_taking" then WaterTaking
    else Other
  }

  function Required(project: Project): set<DocumentType> {
    match project
    case IndustrialDischarge =>
      {ApplicationForm, SitePlan, EffluentCharacterization, MitigationPlan, PublicConsultationRecord}
    case WasteManagement => {ApplicationForm, SitePlan, WasteProfile, ContingencyPlan, ClosurePlan}
    case WaterTaking => {ApplicationForm, HydrogeologyReport, WaterBalance, ImpactAssessment}
    case Other => {ApplicationForm}
  }

  // One finding for each missing document, or a single one when none is.
  function Confidences(missing: nat): seq<real> {
    if missing == 0 then [0.88] else seq(missing, i => 0.96)
  }

  function Doubt(confidences: seq<real>): real {
    if confidences == [] then 0.0 else 1.0 - confidences[0] + Doubt(confidences[1..])
  }

  function MinReal(a: real, b: real): real { if a <= b then a else b }

  function Round2(x: real): real {
    (x * 100.0 + 0.5).Floor as real / 100.0
  }

  function RiskScore(missing: nat): real {
    var penalty := MinReal(45.0, missing as real * 9.0);
    Round2(MinReal(100.0, 25.0 + penalty + Doubt(Confidences(missing)) * 5.0))
  }

  datatype Recommendation = RequestAdditionalInformation | ReferToSeniorTechnicalReview | ProceedToTechnicalReview

  datatype Review = Review(
    admissible: bool,
    missing: set<DocumentType>,
    riskScore: real,
    recommendation: Recommendation)

  function ReviewOf(project: Project, available: set<DocumentType>): Review {
    var missing := Required(project) - available;
    var risk := RiskScore(|missing|);
    Review(|missing| == 0, missing, risk,
      if missing != {} then RequestAdditionalInformation
      else if risk >= 70.0 then ReferToSeniorTechnicalReview
      else ProceedToTechnicalReview)
  }

  lemma {:induction false} DoubtOfMissing(n: nat)
    ensures Doubt(seq(n, i => 0.96)) == n as real * 0.04
  {
    if n > 0 {
      DoubtOfMissing(n - 1);
      assert seq(n, i => 0.96)[1..] == seq(n - 1, i => 0.96);
    }
  }

  // The score before rounding.
  function RawScore(missing: nat): real {
    if missing == 0 then 25.6
    else MinReal(100.0, 25.0 + MinReal(45.0, missing as real * 9.0) + missing as real * 0.2)
  }

  lemma {:induction false} RiskIsRoundedRaw(missing: nat)
    ensures RiskScore(missing) == Round2(RawScore(missing))
  {
    if missing == 0 {
      assert Confidences(0)[1..] == [];
      assert Doubt(Confidences(0)) == 0.12;
    } else {
      DoubtOfMissing(missing);
    }
  }

  lemma {:induction false} RoundMonotone(x: real, y: real)
    requires x <= y
    ensures Round2(x) <= Round2(y)
  {
    var a, b := (x * 100.0 + 0.5).Floor, (y * 100.0 + 0.5).Floor;
    assert a <= b;
  }

  lemma {:induction false} RawMonotone(m: nat, n: nat)
    requires m <= n
    ensures 25.0 <= RawScore(m) <= RawScore(n) <= 100.0
  {
  }

  // The score stays within 25..100 and rises with the number missing.
  lemma {:induction false} RiskIsMonotone(m: nat, n: nat)
    requires m <= n
    ensures 25.0 <= RiskScore(m) <= RiskScore(n) <= 100.0
  {
    RiskIsRoundedRaw(m);
    RiskIsRoundedRaw(n);
    RawMonotone(m, n);
    RoundMonotone(RawScore(m), RawScore(n));
    RoundMonotone(25.0, RawScore(m));
    RoundMonotone(RawScore(n), 100.0);
    assert Round2(25.0) == 25.0 && Round2(100.0) == 100.0;
  }

  lemma {:induction false} SeniorThreshold(missing: nat)
    ensures RiskScore(missing) >= 70.0 <==> missing >= 5
  {
    RiskIsRoundedRaw(4);
    RiskIsRoundedRaw(5);
    assert Round2(RawScore(4)) == 61.8 && Round2(RawScore(5)) == 71.0;
    if missing >= 5 { RiskIsMonotone(5, missing); } else { RiskIsMonotone(missing, 4); }
  }

  // Supplying more document types never raises the score nor revokes
  // admissibility, and an admissible case is never sent back for documents.
  lemma {:induction false} MoreDocumentsHelp(project: Project, fewer: set<DocumentType>, more: set<DocumentType>)
    requires fewer <= more
    ensures var a, b := ReviewOf(project, fewer), ReviewOf(project, more);
      && 25.0 <= b.riskScore <= a.riskScore <= 100.0
      && (a.admissible ==> b.admissible)
      && (a.admissible <==> a.recommendation == ProceedToTechnicalReview)
      && (!a.admissible <==> a.recommendation == RequestAdditionalInformation)
  {
    var a, b := Required(project) - fewer, Required(project) - more;
    SubsetCardinality(b, a);
    RiskIsMonotone(|b|, |a|);
    SeniorThreshold(0);
    assert |a| == 0 <==> a == {};
  }

  lemma {:induction false} SubsetCardinality(a: set<DocumentType>, b: set<DocumentType>)
    requires a <= b
    ensures |a| <= |b|
  {
    assert |b| == |a| + |b - a| by { assert b == a + (b - a); }
  }

  // -- The pipeline ---------------------------------------------------------

  datatype Stage =
    | Upload | Ocr | Classification | MetadataExtraction | EntityExtraction | ComplianceAnalysis
    | RiskScoring | VectorIndexing | WorkflowEngine | AuditLogging

  function ProjectType(metadata: map<string, string>): string {
    if "project_type" in metadata then metadata["project_type"] else "general_review"
  }

  function ProjectOf(metadata: map<string, string>): Project {
    ProjectNamed(ProjectType(metadata))
  }

  function Available(docLabel: Option<DocumentType>): set<DocumentType> {
    if docLabel.Some? then {docLabel.value} else {}
  }

  // The assigned queue is the skill's name with "-review" appended once more.
  function Queue(riskScore: real): string {
    (if riskScore >= 70.0 then "senior-review" else "technical-review") + "-review"
  }

  // Entry i of the table has the most keywords in the text, and no earlier entry
  // has as many.
  ghost predicate Leads(table: seq<TypeKeywords>, text: string, i: int) {
    && 0 <= i < |table| && KeywordCount(text, table[i].keywords) > 0
    && (forall j :: 0 <= j < |table| ==> KeywordCount(text, table[j].keywords) <= KeywordCount(text, table[i].keywords))
    && (forall j :: 0 <= j < i ==> KeywordCount(text, table[j].keywords) < KeywordCount(text, table[i].keywords))
  }

  // No document type the project requires leads the text.
  ghost predicate NoRequiredLeads(table: seq<TypeKeywords>, text: string, required: set<DocumentType>) {
    forall i :: Leads(table, text, i) ==> table[i].documentType !in required
  }

  ghost predicate TextIsSenior(text: string, project: Project) {
    |Required(project)| == 5 && NoRequiredLeads(KeywordTable, text, Required(project))
  }

  lemma {:induction false} StagesFollow()
    ensures [Upload, Ocr, Classification, MetadataExtraction, EntityExtraction]
      + [ComplianceAnalysis, RiskScoring, VectorIndexing, WorkflowEngine] + [AuditLogging] ==
      [Upload, Ocr, Classification, MetadataExtraction, EntityExtraction,
       ComplianceAnalysis, RiskScoring, VectorIndexing, WorkflowEngine, AuditLogging]
  {
  }

  class ProcessingResult {
    var stages: seq<Stage>
    var docLabel: Option<DocumentType>
    var score: nat
    var riskScore: real
    var queue: string
    var completed: bool

    constructor ()
      ensures stages == [] && !completed
    {
      stages, docLabel, score, riskScore, queue, completed := [], None, 0, 0.0, "", false;
    }

    method Understand(text: string)
      requires stages == []
      modifies this`stages, this`docLabel, this`score
      ensures stages == [Upload, Ocr, Classification, MetadataExtraction, EntityExtraction]
      ensures IsLabel(KeywordTable, text, docLabel, score) && LabelName(docLabel) == LabelOf(text)
    {
      stages := stages + [Upload];
      stages := stages + [Ocr];
      docLabel, score := Classify(KeywordTable, text);
      LabelByDecision(text, docLabel, score);
      stages := stages + [Classification];
      stages := stages + [MetadataExtraction];
      stages := stages + [EntityExtraction];
    }

    method Assess(metadata: map<string, string>)
      modifies this`stages, this`riskScore, this`queue
      ensures stages == old(stages) + [ComplianceAnalysis, RiskScoring, VectorIndexing, WorkflowEngine]
      ensures riskScore == ReviewOf(ProjectOf(metadata), Available(docLabel)).riskScore
      ensures queue == Queue(riskScore)
      ensures riskScore == RiskOf(ProjectType(metadata), LabelName(docLabel))
      ensures queue == if riskScore == 71.0 then "senior-review-review" else "technical-review-review"
    {
      OutcomeByName(docLabel, metadata);
      riskScore := ReviewOf(ProjectOf(metadata), Available(docLabel)).riskScore;
      stages := stages + [ComplianceAnalysis];
      stages := stages + [RiskScoring];
      stages := stages + [VectorIndexing];
      queue := Queue(riskScore);
      stages := stages + [WorkflowEngine];
    }

    method Run(text: string, metadata: map<string, string>)
      requires stages == []
      modifies this
      ensures completed && stages == [Upload, Ocr, Classification, MetadataExtraction, EntityExtraction,
        ComplianceAnalysis, RiskScoring, VectorIndexing, WorkflowEngine, AuditLogging]
      ensures IsLabel(KeywordTable, text, docLabel, score)
      ensures riskScore == ReviewOf(ProjectOf(metadata), Available(docLabel)).riskScore
      ensures queue == "senior-review-review" <==> TextIsSenior(text, ProjectOf(metadata))
      ensures LabelName(docLabel) == LabelOf(text)
      ensures riskScore == RiskOf(ProjectType(metadata), LabelOf(text))
      ensures queue == if riskScore == 71.0 then "senior-review-review" else "technical-review-review"
    {
      Understand(text);
      Assess(metadata);
      StagesFollow();
      stages := stages + [AuditLogging];
      completed := true;
      SeniorFromText(text, docLabel, score, metadata);
    }
  }

  lemma {:induction false} RequiredCount(project: Project)
    ensures |Required(project)| == match project
      case IndustrialDischarge => 5 case WasteManagement => 5 case WaterTaking => 4 case Other => 1
  {
  }

  lemma {:induction false} MissingCount(required: set<DocumentType>, docLabel: Option<DocumentType>)
    ensures |required - Available(docLabel)| ==
      if docLabel.Some? && docLabel.value in required then |required| - 1 else |required|
  {
    var missing := required - Available(docLabel);
    if docLabel.Some? && docLabel.value in required {
      assert required == missing + {docLabel.value};
    } else {
      assert missing == required;
    }
  }

  // End to end: a document reaches the senior queue exactly when its project
  // type requires five documents and its label is not one of them.
  lemma {:induction false} SeniorQueueExactly(docLabel: Option<DocumentType>, metadata: map<string, string>)
    ensures var required := Required(ProjectOf(metadata));
      Queue(ReviewOf(ProjectOf(metadata), Available(docLabel)).riskScore) == "senior-review-review" <==>
        |required| == 5 && (docLabel == None || docLabel.value !in required)
  {
    var required := Required(ProjectOf(metadata));
    RequiredCount(ProjectOf(metadata));
    MissingCount(required, docLabel);
    SeniorThreshold(|required - Available(docLabel)|);
    QueueNames(ReviewOf(ProjectOf(metadata), Available(docLabel)).riskScore);
  }

  lemma {:induction false} QueueNames(riskScore: real)
    ensures Queue(riskScore) == "senior-review-review" <==> riskScore >= 70.0
  {
    assert Queue(riskScore)[0] == if riskScore >= 70.0 then 's' else 't';
  }

  lemma {:induction false} LabelLeads(table: seq<TypeKeywords>, text: string, docLabel: Option<DocumentType>,
      score: nat, required: set<DocumentType>)
    requires IsLabel(table, text, docLabel, score)
    ensures NoRequiredLeads(table, text, required) <==> docLabel == None || docLabel.value !in required
  {
    if docLabel.Some? {
      var k :| FirstBest(table, text, docLabel.value, score, k);
      assert Leads(table, text, k);
      forall i | Leads(table, text, i) ensures i == k {
        assert i <= k && k <= i;
      }
    }
  }

  // From the text itself: the senior queue exactly when the project requires
  // five documents and none of them leads the text, by the keyword table.
  lemma {:induction false} SeniorFromText(text: string, docLabel: Option<DocumentType>, score: nat,
      metadata: map<string, string>)
    requires IsLabel(KeywordTable, text, docLabel, score)
    ensures var risk := ReviewOf(ProjectOf(metadata), Available(docLabel)).riskScore;
      Queue(risk) == "senior-review-review" <==> TextIsSenior(text, ProjectOf(metadata))
  {
    SeniorQueueExactly(docLabel, metadata);
    LabelLeads(KeywordTable, text, docLabel, score, Required(ProjectOf(metadata)));
  }

  // -- The same from names and words ----------------------------------------

  // The label as a list of questions: a type both of whose words occur comes
  // before any with one, and then the order of the table decides.
  function LabelOf(text: string): string {
    if Contains(text, "application") && Contains(text, "form") then "application_form"
    else if Contains(text, "site plan") && Contains(text, "drawing") then "site_plan"
    else if Contains(text, "effluent") && Contains(text, "characterization") then "effluent_characterization"
    else if Contains(text, "application") || Contains(text, "form") then "application_form"
    else if Contains(text, "site plan") || Contains(text, "drawing") then "site_plan"
    else if Contains(text, "effluent") || Contains(text, "characterization") then "effluent_characterization"
    else if Contains(text, "mitigation") then "mitigation_plan"
    else if Contains(text, "consultation") then "public_consultation_record"
    else if Contains(text, "waste profile") then "waste_profile"
    else if Contains(text, "contingency") then "contingency_plan"
    else if Contains(text, "closure") then "closure_plan"
    else if Contains(text, "hydrogeology") then "hydrogeology_report"
    else if Contains(text, "water balance") then "water_balance"
    else if Contains(text, "impact assessment") then "impact_assessment"
    else "uncategorized"
  }

  function Occurs(text: string, word: string): nat {
    if Contains(text, word) then 1 else 0
  }

  lemma {:induction false} CountOfWords(text: string, a: string, b: string)
    ensures KeywordCount(text, [a]) == Occurs(text, a)
    ensures KeywordCount(text, [a, b]) == Occurs(text, a) + Occurs(text, b)
  {
    assert [a][..0] == [] && [a, b][..1] == [a];
  }

  // The table's counts, entry by entry.
  function TableCounts(text: string): seq<nat> {
    [Occurs(text, "application") + Occurs(text, "form"),
     Occurs(text, "site plan") + Occurs(text, "drawing"),
     Occurs(text, "effluent") + Occurs(text, "characterization"),
     Occurs(text, "mitigation"), Occurs(text, "consultation"), Occurs(text, "waste profile"),
     Occurs(text, "contingency"), Occurs(text, "closure"), Occurs(text, "hydrogeology"),
     Occurs(text, "water balance"), Occurs(text, "impact assessment")]
  }

  lemma {:induction false} TwoWordCounts(text: string)
    ensures forall j :: 0 <= j < 3 ==> KeywordCount(text, KeywordTable[j].keywords) == TableCounts(text)[j]
  {
    CountOfWords(text, "application", "form");
    CountOfWords(text, "site plan", "drawing");
    CountOfWords(text, "effluent", "characterization");
  }

  lemma {:induction false} OneWordCounts(text: string)
    ensures forall j :: 3 <= j < 7 ==> KeywordCount(text, KeywordTable[j].keywords) == TableCounts(text)[j]
  {
    CountOfWords(text, "mitigation", "");
    CountOfWords(text, "consultation", "");
    CountOfWords(text, "waste profile", "");
    CountOfWords(text, "contingency", "");
  }

  lemma {:induction false} LastWordCounts(text: string)
    ensures forall j :: 7 <= j < 11 ==> KeywordCount(text, KeywordTable[j].keywords) == TableCounts(text)[j]
  {
    CountOfWords(text, "closure", "");
    CountOfWords(text, "hydrogeology", "");
    CountOfWords(text, "water balance", "");
    CountOfWords(text, "impact assessment", "");
  }

  lemma {:induction false} TableCountsHold(text: string)
    ensures |KeywordTable| == |TableCounts(text)| == 11
    ensures forall j :: 0 <= j < 11 ==> KeywordCount(text, KeywordTable[j].keywords) == TableCounts(text)[j]
  {
    TwoWordCounts(text);
    OneWordCounts(text);
    LastWordCounts(text);
  }

  // The questions find the first entry with the largest count.
  lemma {:induction false} QuestionsFindLeader(text: string, i: int)
    requires 0 <= i < 11 && TableCounts(text)[i] > 0
    requires forall j :: 0 <= j < 11 ==> TableCounts(text)[j] <= TableCounts(text)[i]
    requires forall j :: 0 <= j < i ==> TableCounts(text)[j] < TableCounts(text)[i]
    ensures Name(KeywordTable[i].documentType) == LabelOf(text)
  {
    var c := TableCounts(text);
    assert c[0] <= c[i] && c[1] <= c[i] && c[2] <= c[i];
    assert i > 0 ==> c[0] < c[i];
    assert i > 1 ==> c[1] < c[i];
    assert i > 2 ==> c[2] < c[i] && c[i] == 1;
    assert i > 3 ==> c[3] < c[i];
    assert i > 4 ==> c[4] < c[i];
    assert i > 5 ==> c[5] < c[i];
    assert i > 6 ==> c[6] < c[i];
    assert i > 7 ==> c[7] < c[i];
    assert i > 8 ==> c[8] < c[i];
    assert i > 9 ==> c[9] < c[i];
  }

  lemma {:induction false} QuestionsFindNone(text: string)
    requires forall j :: 0 <= j < 11 ==> TableCounts(text)[j] == 0
    ensures LabelOf(text) == "uncategorized"
  {
    var c := TableCounts(text);
    assert c[0] == 0 && c[1] == 0 && c[2] == 0 && c[3] == 0 && c[4] == 0 && c[5] == 0;
    assert c[6] == 0 && c[7] == 0 && c[8] == 0 && c[9] == 0 && c[10] == 0;
  }

  // The classifier answers the questions.
  lemma {:induction false} LabelByDecision(text: string, docLabel: Option<DocumentType>, score: nat)
    requires IsLabel(KeywordTable, text, docLabel, score)
    ensures LabelName(docLabel) == LabelOf(text)
  {
    TableCountsHold(text);
    if docLabel.Some? {
      var i :| FirstBest(KeywordTable, text, docLabel.value, score, i);
      QuestionsFindLeader(text, i);
    } else {
      QuestionsFindNone(text);
    }
  }

  // The names of the documents a project type requires.
  function RequiredNames(projectType: string): set<string> {
    if projectType == "industrial_discharge" then
      {"application_form", "site_plan", "effluent_characterization", "mitigation_plan", "public_consultation_record"}
    else if projectType == "waste_management" then
      {"application_form", "site_plan", "waste_profile", "contingency_plan", "closure_plan"}
    else if projectType == "water_taking" then
      {"application_form", "hydrogeology_report", "water_balance", "impact_assessment"}
    else {"application_form"}
  }

  // The score by project type and label.
  function RiskOf(projectType: string, name: string): real {
    var supplied := name in RequiredNames(projectType);
    if projectType == "industrial_discharge" || projectType == "waste_management" then
      if supplied then 61.8 else 71.0
    else if projectType == "water_taking" then
      if supplied then 52.6 else 61.8
    else
      if supplied then 25.6 else 34.2
  }

  lemma {:induction false} RiskValues()
    ensures RiskScore(0) == 25.6 && RiskScore(1) == 34.2 && RiskScore(2) == 43.4
    ensures RiskScore(3) == 52.6 && RiskScore(4) == 61.8 && RiskScore(5) == 71.0
  {
    RiskIsRoundedRaw(0);
    RiskIsRoundedRaw(1);
    RiskIsRoundedRaw(2);
    RiskIsRoundedRaw(3);
    RiskIsRoundedRaw(4);
    RiskIsRoundedRaw(5);
  }

  lemma {:induction false} RequiredByName(docLabel: Option<DocumentType>, projectType: string)
    ensures (docLabel.Some? && docLabel.value in Required(ProjectNamed(projectType))) <==>
      LabelName(docLabel) in RequiredNames(projectType)
  {
  }

  lemma {:induction false} OutcomeByName(docLabel: Option<DocumentType>, metadata: map<string, string>)
    ensures var risk := ReviewOf(ProjectOf(metadata), Available(docLabel)).riskScore;
      && risk == RiskOf(ProjectType(metadata), LabelName(docLabel))
      && Queue(risk) == (if risk >= 70.0 then "senior-review-review" else "technical-review-review")
      && (risk >= 70.0 <==> risk == 71.0)
  {
    var required := Required(ProjectOf(metadata));
    RequiredCount(ProjectOf(metadata));
    MissingCount(required, docLabel);
    RequiredByName(docLabel, ProjectType(metadata));
    RiskValues();
    QueueText(RiskOf(ProjectType(metadata), LabelName(docLabel)));
  }

  lemma {:induction false} QueueText(risk: real)
    ensures Queue(risk) == if risk >= 70.0 then "senior-review-review" else "technical-review-review"
  {
  }
}
