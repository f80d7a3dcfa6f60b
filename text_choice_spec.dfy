/**
 * The answer-selection rules of the survey app's text-choice question step
 * (TextChoiceQuestionController.swift), stated as pure functions over values:
 * how tapping a choice or the "Other" row changes the selection, how the
 * selection is encoded as a step result and restored from one, when the step
 * may advance, and how rows are counted and searched. The class in
 * text_choice_controller.dfy updates its fields in place and is proved
 * against these functions; the lemmas here state what the rules promise.
 */
module TextChoiceSpec {
  import opened Wrappers
  import Strings

  /** ORKTextChoice: one row of the list; `value` is what an answer records. */
  datatype TextChoice = TextChoice(text: string, detailText: string, value: string, exclusive: bool)

  /** struct OtherChoice: configuration of the "Other" row; `otherChoiceText` is the free text typed into it. */
  datatype OtherChoice = OtherChoice(
    isShowOtherCell: bool,
    isShowOtherField: bool,
    otherTitle: string,
    placeholder: string,
    isMandatory: bool,
    detailText: string,
    otherChoiceText: string,
    isExclusive: bool,
    value: string)

  /** OtherChoice() with the initialiser's default arguments. */
  const DefaultOtherChoice := OtherChoice(false, true, "Other", "enter here", true, "", "", false, "")

  datatype ChoiceStyle = SingleChoice | MultipleChoice

  /** ORKTextChoiceAnswerFormat. */
  datatype AnswerFormat = AnswerFormat(style: ChoiceStyle, textChoices: seq<TextChoice>)

  /** QuestionStep; `answerFormat` is None when the step's format is not a text-choice format. */
  datatype QuestionStep = QuestionStep(identifier: string, answerFormat: Option<AnswerFormat>, otherChoice: OtherChoice)

  /** One element of `choiceAnswers: [Any]`: a string, a JSON dictionary (its string-valued entries), or anything else. */
  datatype ChoiceAnswer = StringAnswer(s: string) | DictAnswer(entries: map<string, string>) | OtherKindAnswer

  /** ORKChoiceQuestionResult. */
  datatype ChoiceQuestionResult = ChoiceQuestionResult(
    identifier: string,
    questionType: ChoiceStyle,
    choiceAnswers: Option<seq<ChoiceAnswer>>)

  /** ORKStepResult with its child results. */
  datatype StepResult = StepResult(identifier: string, results: seq<ChoiceQuestionResult>)

  /** The one property of the UITableView that the selection rules read. */
  datatype TableView = TableView(allowsMultipleSelection: bool)

  /** The selection state: `selectedChoices` and `isOtherCellSelected`. */
  datatype Selection = Selection(selected: seq<TextChoice>, isOtherSelected: bool)

  /** The restored part of the state: selection plus the Other row's text. */
  datatype Restored = Restored(selected: seq<TextChoice>, isOtherSelected: bool, otherChoiceText: string)

  predicate NoDuplicates(s: seq<TextChoice>) {
    forall i, j :: 0 <= i < j < |s| ==> s[i] != s[j]
  }

  predicate AnyExclusive(s: seq<TextChoice>) {
    exists i :: 0 <= i < |s| && s[i].exclusive
  }

  /** `filter({ $0.exclusive == true })`. */
  function ExclusiveChoices(s: seq<TextChoice>): (r: seq<TextChoice>)
    ensures forall c :: c in r <==> c in s && c.exclusive
    ensures r != [] <==> AnyExclusive(s)
  {
    if s == [] then []
    else if s[0].exclusive then [s[0]] + ExclusiveChoices(s[1..])
    else
      assert AnyExclusive(s) <==> AnyExclusive(s[1..]) by {
        if AnyExclusive(s) {
          var i :| 0 <= i < |s| && s[i].exclusive;
          assert s[1..][i - 1] == s[i];
        }
        if AnyExclusive(s[1..]) {
          var i :| 0 <= i < |s| - 1 && s[1..][i].exclusive;
          assert s[i + 1] == s[1..][i];
        }
      }
      ExclusiveChoices(s[1..])
  }

  /** `firstIndex(of:)`. */
  function FirstIndex(s: seq<TextChoice>, c: TextChoice): (r: Option<nat>)
    ensures r.None? <==> c !in s
    ensures r.Some? ==> r.value < |s| && s[r.value] == c && c !in s[..r.value]
  {
    if s == [] then None
    else if s[0] == c then Some(0)
    else
      match FirstIndex(s[1..], c)
      case None => None
      case Some(i) =>
        assert s[..i + 1] == [s[0]] + s[1..][..i];
        Some(i + 1)
  }

  // ---------------------------------------------------------------------
  // updateSelectedChoice and didTapOnOtherCell
  // ---------------------------------------------------------------------

  /** updateForSingleSelection: the tapped choice alone, or nothing for the Other row (a nil choice). */
  function SingleSelection(choice: Option<TextChoice>): seq<TextChoice> {
    match choice
    case None => []
    case Some(c) => [c]
  }

  /** removeSelectedExclusiveChoices: a selected exclusive choice collapses the selection to the tapped one. */
  function RemoveSelectedExclusive(selected: seq<TextChoice>, choice: Option<TextChoice>): seq<TextChoice> {
    if ExclusiveChoices(selected) != [] then SingleSelection(choice) else selected
  }

  /** removeOtherChoiceIfExclusive: the new `isOtherCellSelected`. */
  function OtherAfterExclusiveCheck(isOtherSelected: bool, otherExclusive: bool, choice: Option<TextChoice>): bool {
    if (otherExclusive && isOtherSelected) || (choice.Some? && choice.value.exclusive && isOtherSelected) then false
    else isOtherSelected
  }

  /** The last step of updateForMultipleSelection: remove a deselected choice, append a newly selected one. */
  function Toggle(selected: seq<TextChoice>, c: TextChoice, didSelect: bool): seq<TextChoice> {
    match FirstIndex(selected, c)
    case Some(i) => if !didSelect then selected[..i] + selected[i + 1..] else selected
    case None => if didSelect then selected + [c] else selected
  }

  /** updateForMultipleSelection. */
  function MultipleSelection(s: Selection, otherExclusive: bool, choice: Option<TextChoice>, didSelect: bool): Selection {
    match choice
    case None =>
      var kept := if otherExclusive then [] else s.selected;
      Selection(RemoveSelectedExclusive(kept, choice), s.isOtherSelected)
    case Some(c) =>
      if c.exclusive && didSelect then
        Selection(SingleSelection(choice), OtherAfterExclusiveCheck(s.isOtherSelected, otherExclusive, choice))
      else if c.exclusive then
        Selection(Toggle(s.selected, c, didSelect), s.isOtherSelected)
      else
        Selection(
          Toggle(RemoveSelectedExclusive(s.selected, choice), c, didSelect),
          OtherAfterExclusiveCheck(s.isOtherSelected, otherExclusive, choice))
  }

  /** updateSelectedChoice: nothing without a table view, else the table's selection mode decides. */
  function UpdateSelection(
    s: Selection, tableView: Option<TableView>, otherExclusive: bool, choice: Option<TextChoice>, didSelect: bool
  ): Selection {
    match tableView
    case None => s
    case Some(tv) =>
      if tv.allowsMultipleSelection then MultipleSelection(s, otherExclusive, choice, didSelect)
      else Selection(SingleSelection(choice), s.isOtherSelected)
  }

  /** didTapOnOtherCell: selecting marks Other selected and then updates with a nil choice; deselecting only clears the mark. */
  function TapOther(s: Selection, tableView: Option<TableView>, otherExclusive: bool, didSelect: bool): Selection {
    if didSelect then UpdateSelection(s.(isOtherSelected := true), tableView, otherExclusive, None, true)
    else s.(isOtherSelected := false)
  }

  /** updateNextOrContinueBtnState: Continue is enabled when something is selected. */
  predicate ContinueEnabled(s: Selection) {
    |s.selected| > 0 || s.isOtherSelected
  }

  /** goForward's guard: Other is selected and mandatory but its trimmed text is empty. */
  predicate RefusesToAdvance(isOtherSelected: bool, other: OtherChoice) {
    Strings.Trim(other.otherChoiceText) == [] && isOtherSelected && other.isMandatory
  }

  // ---------------------------------------------------------------------
  // Rows and search
  // ---------------------------------------------------------------------

  /** The choices the table lists: the search results while searching, else all choices. */
  function Listed(textChoices: seq<TextChoice>, searchChoices: seq<TextChoice>, isSearching: bool): seq<TextChoice> {
    if isSearching then searchChoices else textChoices
  }

  /** tableView(_:numberOfRowsInSection:): one row per listed choice plus one for Other when it is shown. */
  function NumberOfRows(listed: seq<TextChoice>, other: OtherChoice): nat {
    if other.isShowOtherCell then |listed| + 1 else |listed|
  }

  /** isLastCell(indexPath:). */
  predicate IsLastCell(row: nat, textChoices: seq<TextChoice>, searchChoices: seq<TextChoice>, isSearching: bool) {
    (row == |textChoices| && !isSearching) || (row == |searchChoices| && isSearching)
  }

  /** isShowSearchBar. */
  predicate IsShowSearchBar(textChoices: seq<TextChoice>, other: OtherChoice) {
    if other.isShowOtherCell then |textChoices| > 9 else |textChoices| > 10
  }

  predicate MatchesSearch(c: TextChoice, searchText: string) {
    Strings.Contains(Strings.ToLower(c.text), Strings.ToLower(searchText))
  }

  /** The choices whose lower-cased text contains the lower-cased search text, in their order. */
  function FilterByText(choices: seq<TextChoice>, searchText: string): (r: seq<TextChoice>)
    ensures |r| <= |choices|
    ensures forall c :: c in r <==> c in choices && MatchesSearch(c, searchText)
  {
    if choices == [] then []
    else if MatchesSearch(choices[0], searchText) then [choices[0]] + FilterByText(choices[1..], searchText)
    else FilterByText(choices[1..], searchText)
  }

  /** searchBar(_:textDidChange:). */
  function SearchChoices(textChoices: seq<TextChoice>, searchText: string): seq<TextChoice> {
    if searchText == "" then textChoices else FilterByText(textChoices, searchText)
  }

  // ---------------------------------------------------------------------
  // The `result` getter, init(step:result:) and stepDidChange
  // ---------------------------------------------------------------------

  /** The Other record: "other" holds the Other value, "text" the typed text when there is any. */
  function OtherRecord(other: OtherChoice): map<string, string> {
    if other.otherChoiceText == "" then map["other" := other.value]
    else map["other" := other.value, "text" := other.otherChoiceText]
  }

  function ChoiceValues(selected: seq<TextChoice>): seq<ChoiceAnswer> {
    seq(|selected|, i requires 0 <= i < |selected| => StringAnswer(selected[i].value))
  }

  /** `choiceAnswers`: the selected values in order, then the Other record when Other is selected. */
  function EncodeAnswers(selected: seq<TextChoice>, isOtherSelected: bool, other: OtherChoice): seq<ChoiceAnswer> {
    ChoiceValues(selected) + (if isOtherSelected then [DictAnswer(OtherRecord(other))] else [])
  }

  function QuestionType(format: Option<AnswerFormat>): ChoiceStyle {
    if format.Some? && format.value.style == MultipleChoice then MultipleChoice else SingleChoice
  }

  /** The `result` getter: nothing without a step, else a step result holding one choice result. */
  function EncodeResult(
    identifier: Option<string>, format: Option<AnswerFormat>,
    selected: seq<TextChoice>, isOtherSelected: bool, other: OtherChoice
  ): Option<StepResult> {
    match identifier
    case None => None
    case Some(id) =>
      Some(StepResult(id, [ChoiceQuestionResult(id, QuestionType(format), Some(EncodeAnswers(selected, isOtherSelected, other)))]))
  }

  /** How init(step:result:) records one answer: zero or one entry of `answers`. */
  function AnswerRecord(a: ChoiceAnswer): seq<map<string, string>> {
    match a
    case StringAnswer(s) => [map["value" := s]]
    case DictAnswer(d) =>
      if "text" in d then [map["otherChoiceText" := d["text"]]]
      else if "other" in d then [map["otherValue" := d["other"]]]
      else []
    case OtherKindAnswer => []
  }

  function AnswerRecords(answers: seq<ChoiceAnswer>): seq<map<string, string>> {
    if answers == [] then []
    else AnswerRecords(answers[..|answers| - 1]) + AnswerRecord(answers[|answers| - 1])
  }

  /**
   * `result(forIdentifier:)`, read as the first child result with that
   * identifier; step results are taken to hold one child per identifier.
   */
  function FindResult(results: seq<ChoiceQuestionResult>, id: string): Option<ChoiceQuestionResult> {
    if results == [] then None
    else if results[0].identifier == id then Some(results[0])
    else FindResult(results[1..], id)
  }

  /** The chain of `if let` in init(step:result:): the choice answers stored for the step, if any. */
  function StoredChoiceAnswers(id: string, result: Option<StepResult>): Option<seq<ChoiceAnswer>> {
    if result.None? then None
    else
      match FindResult(result.value.results, id)
      case None => None
      case Some(cr) => cr.choiceAnswers
  }

  /** `filter({ $0.value == answerValue }).first`. */
  function FirstWithValue(choices: seq<TextChoice>, v: string): Option<TextChoice> {
    if choices == [] then None
    else if choices[0].value == v then Some(choices[0])
    else FirstWithValue(choices[1..], v)
  }

  /** One iteration of stepDidChange's loop: a known value selects its choice, anything else selects Other. */
  function RestoreAnswer(st: Restored, textChoices: seq<TextChoice>, answer: map<string, string>): Restored {
    if "value" in answer && FirstWithValue(textChoices, answer["value"]).Some? then
      st.(selected := st.selected + [FirstWithValue(textChoices, answer["value"]).value])
    else
      st.(isOtherSelected := true,
          otherChoiceText := if "otherChoiceText" in answer then answer["otherChoiceText"] else st.otherChoiceText)
  }

  function RestoreAnswers(st: Restored, textChoices: seq<TextChoice>, answers: seq<map<string, string>>): Restored {
    if answers == [] then st
    else RestoreAnswer(RestoreAnswers(st, textChoices, answers[..|answers| - 1]), textChoices, answers[|answers| - 1])
  }

  predicate DistinctValues(choices: seq<TextChoice>) {
    forall i, j :: 0 <= i < |choices| && 0 <= j < |choices| && choices[i].value == choices[j].value ==> i == j
  }

  // ---------------------------------------------------------------------
  // Lemmas: selection
  // ---------------------------------------------------------------------

  /** Single-selection mode: a choice replaces the selection; the Other row empties it and is marked. */
  lemma SingleModeSelection(s: Selection, otherExclusive: bool, c: TextChoice, didSelect: bool)
    ensures UpdateSelection(s, Some(TableView(false)), otherExclusive, Some(c), didSelect).selected == [c]
    ensures TapOther(s, Some(TableView(false)), otherExclusive, true) == Selection([], true)
  {
  }

  /** Multiple mode, selecting an exclusive choice: it alone stays selected, and Other is deselected. */
  lemma MultipleModeExclusiveChoice(s: Selection, otherExclusive: bool, c: TextChoice)
    requires c.exclusive
    ensures UpdateSelection(s, Some(TableView(true)), otherExclusive, Some(c), true) == Selection([c], false)
  {
  }

  /**
   * Multiple mode, selecting a non-exclusive choice: it is selected afterwards, no exclusive
   * choice stays selected, an exclusive Other is deselected (a non-exclusive one is kept), and
   * when no exclusive choice was selected the earlier selection is kept with the choice appended.
   */
  lemma MultipleModeNonExclusiveChoice(s: Selection, otherExclusive: bool, c: TextChoice)
    requires !c.exclusive
    ensures var r := UpdateSelection(s, Some(TableView(true)), otherExclusive, Some(c), true);
      && c in r.selected
      && !AnyExclusive(r.selected)
      && r.isOtherSelected == (s.isOtherSelected && !otherExclusive)
      && (!AnyExclusive(s.selected) ==> r.selected == if c in s.selected then s.selected else s.selected + [c])
  {
    var r := UpdateSelection(s, Some(TableView(true)), otherExclusive, Some(c), true);
    var base := RemoveSelectedExclusive(s.selected, Some(c));
    assert !AnyExclusive(base) by {
      if AnyExclusive(s.selected) {
        assert base == [c];
      }
    }
    assert r.selected == if c in base then base else base + [c];
    if c !in base {
      forall i | 0 <= i < |base| + 1 ensures !(base + [c])[i].exclusive {
        if i < |base| { assert (base + [c])[i] == base[i]; }
      }
    }
  }

  /** Multiple mode, tapping Other: it is selected, an exclusive Other clears the choices, and no exclusive choice stays. */
  lemma MultipleModeOther(s: Selection, otherExclusive: bool)
    ensures var r := TapOther(s, Some(TableView(true)), otherExclusive, true);
      && r.isOtherSelected
      && (otherExclusive ==> r.selected == [])
      && !AnyExclusive(r.selected)
      && (!otherExclusive && !AnyExclusive(s.selected) ==> r.selected == s.selected)
  {
  }

  /** Without a table view nothing changes. */
  lemma NoTableViewNoChange(s: Selection, otherExclusive: bool, choice: Option<TextChoice>, didSelect: bool)
    ensures UpdateSelection(s, None, otherExclusive, choice, didSelect) == s
  {
  }

  lemma RemoveAtKeepsDistinct(s: seq<TextChoice>, i: nat)
    requires i < |s| && NoDuplicates(s)
    ensures NoDuplicates(s[..i] + s[i + 1..])
    ensures s[i] !in s[..i] + s[i + 1..]
    ensures forall x :: x in s && x != s[i] ==> x in s[..i] + s[i + 1..]
  {
    var r := s[..i] + s[i + 1..];
    assert forall p :: 0 <= p < |r| ==> r[p] == s[if p < i then p else p + 1];
    forall x | x in s && x != s[i] ensures x in r {
      var k :| 0 <= k < |s| && s[k] == x;
      assert r[if k < i then k else k - 1] == x;
    }
  }

  lemma AppendAbsentKeepsDistinct(s: seq<TextChoice>, c: TextChoice)
    requires NoDuplicates(s) && c !in s
    ensures NoDuplicates(s + [c])
  {
  }

  lemma ToggleKeepsDistinct(s: seq<TextChoice>, c: TextChoice, didSelect: bool)
    requires NoDuplicates(s)
    ensures NoDuplicates(Toggle(s, c, didSelect))
    ensures !didSelect ==> c !in Toggle(s, c, didSelect)
    ensures !didSelect ==> forall x :: x in s && x != c ==> x in Toggle(s, c, didSelect)
  {
    match FirstIndex(s, c)
    case Some(i) =>
      if !didSelect { RemoveAtKeepsDistinct(s, i); }
    case None =>
      if didSelect { AppendAbsentKeepsDistinct(s, c); }
  }

  /** A selection without duplicates never gains one: choices are appended only when absent. */
  lemma {:induction false} UpdateKeepsDistinct(
    s: Selection, tableView: Option<TableView>, otherExclusive: bool, choice: Option<TextChoice>, didSelect: bool)
    requires NoDuplicates(s.selected)
    ensures NoDuplicates(UpdateSelection(s, tableView, otherExclusive, choice, didSelect).selected)
    ensures NoDuplicates(TapOther(s, tableView, otherExclusive, didSelect).selected)
  {
    if tableView.Some? && tableView.value.allowsMultipleSelection && choice.Some? {
      var c := choice.value;
      if !(c.exclusive && didSelect) {
        var base := if c.exclusive then s.selected else RemoveSelectedExclusive(s.selected, choice);
        ToggleKeepsDistinct(base, c, didSelect);
      }
    }
  }

  /**
   * Multiple mode, deselecting a choice from a selection without duplicates removes it, and
   * keeps every other choice unless an exclusive choice collapsed the selection first.
   */
  lemma {:induction false} MultipleModeDeselect(s: Selection, otherExclusive: bool, c: TextChoice)
    requires NoDuplicates(s.selected)
    ensures var r := UpdateSelection(s, Some(TableView(true)), otherExclusive, Some(c), false);
      && c !in r.selected
      && (c.exclusive || !AnyExclusive(s.selected) ==> forall x :: x in s.selected && x != c ==> x in r.selected)
  {
    var base := if c.exclusive then s.selected else RemoveSelectedExclusive(s.selected, Some(c));
    ToggleKeepsDistinct(base, c, false);
  }

  /** Selecting a choice or the Other row (with a table view) always enables Continue. */
  lemma SelectingEnablesContinue(s: Selection, tableView: Option<TableView>, otherExclusive: bool, c: TextChoice)
    requires tableView.Some?
    ensures c in UpdateSelection(s, tableView, otherExclusive, Some(c), true).selected
    ensures ContinueEnabled(UpdateSelection(s, tableView, otherExclusive, Some(c), true))
    ensures ContinueEnabled(TapOther(s, tableView, otherExclusive, true))
  {
    if tableView.value.allowsMultipleSelection && !c.exclusive {
      MultipleModeNonExclusiveChoice(s, otherExclusive, c);
    }
  }

  /** Selection stays within the offered choices when the tapped choice is one of them. */
  lemma UpdateStaysWithinChoices(
    s: Selection, tableView: Option<TableView>, otherExclusive: bool, choice: Option<TextChoice>, didSelect: bool,
    choices: seq<TextChoice>)
    requires forall x :: x in s.selected ==> x in choices
    requires choice.Some? ==> choice.value in choices
    ensures forall x :: x in UpdateSelection(s, tableView, otherExclusive, choice, didSelect).selected ==> x in choices
  {
    if tableView.Some? && tableView.value.allowsMultipleSelection && choice.Some? {
      var c := choice.value;
      if !(c.exclusive && didSelect) {
        var base := if c.exclusive then s.selected else RemoveSelectedExclusive(s.selected, choice);
        RemoveSelectedExclusiveWithin(s.selected, choice, choices);
        ToggleWithin(base, c, didSelect, choices);
      }
    }
  }

  lemma RemoveSelectedExclusiveWithin(selected: seq<TextChoice>, choice: Option<TextChoice>, choices: seq<TextChoice>)
    requires forall x :: x in selected ==> x in choices
    requires choice.Some? ==> choice.value in choices
    ensures forall x :: x in RemoveSelectedExclusive(selected, choice) ==> x in choices
  {
  }

  lemma ToggleWithin(base: seq<TextChoice>, c: TextChoice, didSelect: bool, choices: seq<TextChoice>)
    requires forall x :: x in base ==> x in choices
    requires c in choices
    ensures forall x :: x in Toggle(base, c, didSelect) ==> x in choices
  {
    match FirstIndex(base, c)
    case Some(i) =>
      if !didSelect {
        var r := base[..i] + base[i + 1..];
        forall x | x in r ensures x in choices {
          var k :| 0 <= k < |r| && r[k] == x;
          assert x == base[if k < i then k else k + 1];
        }
      }
    case None =>
  }

  /** goForward refuses exactly when Other is selected and mandatory and its text is blank. */
  lemma RefusesIffBlankMandatoryOther(isOtherSelected: bool, other: OtherChoice)
    ensures RefusesToAdvance(isOtherSelected, other)
        <==> isOtherSelected && other.isMandatory && Strings.IsBlank(other.otherChoiceText)
  {
    Strings.TrimSpec(other.otherChoiceText);
  }

  // ---------------------------------------------------------------------
  // Lemmas: rows and search
  // ---------------------------------------------------------------------

  /** For a row the table can show, isLastCell holds exactly for the final row when the Other row is shown. */
  lemma LastCellIsOtherRow(
    row: nat, textChoices: seq<TextChoice>, searchChoices: seq<TextChoice>, isSearching: bool, other: OtherChoice)
    requires row < NumberOfRows(Listed(textChoices, searchChoices, isSearching), other)
    ensures IsLastCell(row, textChoices, searchChoices, isSearching)
        <==> other.isShowOtherCell && row == NumberOfRows(Listed(textChoices, searchChoices, isSearching), other) - 1
    ensures !IsLastCell(row, textChoices, searchChoices, isSearching) ==> row < |Listed(textChoices, searchChoices, isSearching)|
  {
  }

  /** The search bar is shown exactly when the unfiltered table has more than ten rows. */
  lemma SearchBarOverTenRows(textChoices: seq<TextChoice>, other: OtherChoice)
    ensures IsShowSearchBar(textChoices, other) <==> NumberOfRows(textChoices, other) > 10
  {
  }

  /** The filter keeps the choices' order: filtering a concatenation filters each part. */
  lemma {:induction false} FilterByTextAppend(xs: seq<TextChoice>, ys: seq<TextChoice>, searchText: string)
    ensures FilterByText(xs + ys, searchText) == FilterByText(xs, searchText) + FilterByText(ys, searchText)
  {
    if xs == [] {
      assert xs + ys == ys;
    } else {
      assert (xs + ys)[1..] == xs[1..] + ys;
      FilterByTextAppend(xs[1..], ys, searchText);
    }
  }

  /** An empty search keeps every choice, so the explicit empty-text branch agrees with the filter. */
  lemma {:induction false} EmptySearchKeepsAll(choices: seq<TextChoice>)
    ensures FilterByText(choices, "") == choices
    ensures SearchChoices(choices, "") == choices
  {
    if choices != [] {
      Strings.ContainsEmpty(Strings.ToLower(choices[0].text));
      EmptySearchKeepsAll(choices[1..]);
    }
  }

  // ---------------------------------------------------------------------
  // Lemmas: encoding and restoring
  // ---------------------------------------------------------------------

  /**
   * The encoded answers are the selected values in order, followed by exactly one Other
   * record when Other is selected; the record carries "text" exactly when the text is non-empty.
   */
  lemma EncodeAnswersShape(selected: seq<TextChoice>, isOtherSelected: bool, other: OtherChoice)
    ensures var a := EncodeAnswers(selected, isOtherSelected, other);
      && |a| == |selected| + (if isOtherSelected then 1 else 0)
      && (forall i :: 0 <= i < |selected| ==> a[i] == StringAnswer(selected[i].value))
      && (isOtherSelected ==>
            && a[|selected|].DictAnswer?
            && a[|selected|].entries["other"] == other.value
            && ("text" in a[|selected|].entries <==> other.otherChoiceText != ""))
  {
  }

  /** The result's question type is multiple choice exactly when the answer style is. */
  lemma QuestionTypeFollowsStyle(format: Option<AnswerFormat>)
    ensures QuestionType(format) == MultipleChoice <==> format.Some? && format.value.style == MultipleChoice
  {
  }

  lemma {:induction false} AnswerRecordsAppend(xs: seq<ChoiceAnswer>, ys: seq<ChoiceAnswer>)
    ensures AnswerRecords(xs + ys) == AnswerRecords(xs) + AnswerRecords(ys)
  {
    if ys == [] {
      assert xs + ys == xs;
    } else {
      var n := |ys| - 1;
      assert (xs + ys)[..|xs + ys| - 1] == xs + ys[..n];
      assert (xs + ys)[|xs + ys| - 1] == ys[n];
      assert AnswerRecords(xs + ys) == AnswerRecords(xs + ys[..n]) + AnswerRecord(ys[n]);
      AnswerRecordsAppend(xs, ys[..n]);
      assert AnswerRecords(ys) == AnswerRecords(ys[..n]) + AnswerRecord(ys[n]);
    }
  }

  function ValueRecords(selected: seq<TextChoice>): seq<map<string, string>> {
    seq(|selected|, i requires 0 <= i < |selected| => map["value" := selected[i].value])
  }

  lemma {:induction false} AnswerRecordsOfValues(selected: seq<TextChoice>)
    ensures AnswerRecords(ChoiceValues(selected)) == ValueRecords(selected)
  {
    if selected != [] {
      var n := |selected| - 1;
      assert ChoiceValues(selected)[..n] == ChoiceValues(selected[..n]);
      AnswerRecordsOfValues(selected[..n]);
      assert ValueRecords(selected) == ValueRecords(selected[..n]) + [map["value" := selected[n].value]];
    }
  }

  lemma {:induction false} RestoreAnswersAppend(
    st: Restored, textChoices: seq<TextChoice>, xs: seq<map<string, string>>, ys: seq<map<string, string>>)
    ensures RestoreAnswers(st, textChoices, xs + ys) == RestoreAnswers(RestoreAnswers(st, textChoices, xs), textChoices, ys)
  {
    if ys == [] {
      assert xs + ys == xs;
    } else {
      var n := |ys| - 1;
      assert (xs + ys)[..|xs + ys| - 1] == xs + ys[..n];
      RestoreAnswersAppend(st, textChoices, xs, ys[..n]);
    }
  }

  lemma {:induction false} FirstWithValueFindsChoice(choices: seq<TextChoice>, c: TextChoice)
    requires DistinctValues(choices) && c in choices
    ensures FirstWithValue(choices, c.value) == Some(c)
  {
    if choices[0] != c {
      assert choices[0].value != c.value by {
        var k :| 0 <= k < |choices| && choices[k] == c;
        assert k != 0;
      }
      assert DistinctValues(choices[1..]) by {
        forall i, j | 0 <= i < |choices| - 1 && 0 <= j < |choices| - 1 && choices[1..][i].value == choices[1..][j].value
          ensures i == j
        {
          assert choices[i + 1].value == choices[j + 1].value;
        }
      }
      FirstWithValueFindsChoice(choices[1..], c);
    }
  }

  lemma {:induction false} RestoreValueRecords(st: Restored, textChoices: seq<TextChoice>, selected: seq<TextChoice>)
    requires DistinctValues(textChoices)
    requires forall c :: c in selected ==> c in textChoices
    ensures RestoreAnswers(st, textChoices, ValueRecords(selected)) == st.(selected := st.selected + selected)
  {
    if selected != [] {
      var n := |selected| - 1;
      assert ValueRecords(selected)[..n] == ValueRecords(selected[..n]);
      RestoreValueRecords(st, textChoices, selected[..n]);
      FirstWithValueFindsChoice(textChoices, selected[n]);
      assert selected[..n] + [selected[n]] == selected;
    }
  }

  /**
   * Restoring encoded answers gives back the selected choices in order and the Other mark;
   * the Other text comes back when it was non-empty (an empty one leaves the step's initial
   * text, itself empty by default). Choice values must be distinct and the selected choices
   * must be among the step's choices.
   */
  lemma RestoreRoundTrip(
    textChoices: seq<TextChoice>, selected: seq<TextChoice>, isOtherSelected: bool, other: OtherChoice, initialText: string)
    requires DistinctValues(textChoices)
    requires forall c :: c in selected ==> c in textChoices
    ensures RestoreAnswers(Restored([], false, initialText), textChoices, AnswerRecords(EncodeAnswers(selected, isOtherSelected, other)))
         == Restored(selected, isOtherSelected,
                     if isOtherSelected && other.otherChoiceText != "" then other.otherChoiceText else initialText)
  {
    var tail := if isOtherSelected then [DictAnswer(OtherRecord(other))] else [];
    var start := Restored([], false, initialText);
    var afterValues := Restored(selected, false, initialText);
    assert EncodeAnswers(selected, isOtherSelected, other) == ChoiceValues(selected) + tail;
    AnswerRecordsAppend(ChoiceValues(selected), tail);
    AnswerRecordsOfValues(selected);
    RestoreAnswersAppend(start, textChoices, ValueRecords(selected), AnswerRecords(tail));
    RestoreValueRecords(start, textChoices, selected);
    assert RestoreAnswers(start, textChoices, ValueRecords(selected)) == afterValues;
    if isOtherSelected {
      OtherRecordRestores(afterValues, textChoices, other);
    } else {
      assert AnswerRecords(tail) == [];
    }
  }

  /** Restoring the Other record marks Other selected and brings back a non-empty text. */
  lemma OtherRecordRestores(st: Restored, textChoices: seq<TextChoice>, other: OtherChoice)
    ensures RestoreAnswers(st, textChoices, AnswerRecords([DictAnswer(OtherRecord(other))]))
         == st.(isOtherSelected := true,
                otherChoiceText := if other.otherChoiceText != "" then other.otherChoiceText else st.otherChoiceText)
  {
    var a := [DictAnswer(OtherRecord(other))];
    assert a[..0] == [];
    var records := AnswerRecords(a);
    assert |records| == 1 && "value" !in records[0];
    assert records[..0] == [];
  }

  /** The whole cycle: the step result built by the getter, stored and handed back, restores the selection. */
  lemma ResultRoundTrip(step: QuestionStep, selected: seq<TextChoice>, isOtherSelected: bool, other: OtherChoice)
    requires step.answerFormat.Some?
    requires DistinctValues(step.answerFormat.value.textChoices)
    requires forall c :: c in selected ==> c in step.answerFormat.value.textChoices
    ensures var stored := StoredChoiceAnswers(step.identifier,
                            EncodeResult(Some(step.identifier), step.answerFormat, selected, isOtherSelected, other));
      && stored == Some(EncodeAnswers(selected, isOtherSelected, other))
      && RestoreAnswers(Restored([], false, step.otherChoice.otherChoiceText), step.answerFormat.value.textChoices,
                        AnswerRecords(stored.value))
         == Restored(selected, isOtherSelected,
                     if isOtherSelected && other.otherChoiceText != "" then other.otherChoiceText
                     else step.otherChoice.otherChoiceText)
  {
    RestoreRoundTrip(step.answerFormat.value.textChoices, selected, isOtherSelected, other, step.otherChoice.otherChoiceText);
  }

  /** A stored string that matches no choice, and any Other record, marks Other as selected. */
  lemma UnmatchedAnswerSelectsOther(st: Restored, textChoices: seq<TextChoice>, a: ChoiceAnswer)
    requires a.StringAnswer? ==> forall c :: c in textChoices ==> c.value != a.s
    requires a.DictAnswer? ==> "text" in a.entries || "other" in a.entries
    requires !a.OtherKindAnswer?
    ensures |AnswerRecord(a)| == 1
    ensures RestoreAnswer(st, textChoices, AnswerRecord(a)[0]).isOtherSelected
    ensures RestoreAnswer(st, textChoices, AnswerRecord(a)[0]).selected == st.selected
  {
    if a.StringAnswer? {
      NoMatchingValue(textChoices, a.s);
    }
  }

  lemma {:induction false} NoMatchingValue(choices: seq<TextChoice>, v: string)
    requires forall c :: c in choices ==> c.value != v
    ensures FirstWithValue(choices, v) == None
  {
    if choices != [] {
      NoMatchingValue(choices[1..], v);
    }
  }
}
