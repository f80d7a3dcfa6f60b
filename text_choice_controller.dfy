/**
 * TextChoiceQuestionController: the view controller of a text-choice survey
 * question. Its selection state (`selectedChoices`, `isOtherCellSelected`),
 * the stored answers, the search results and the Other row's text are fields
 * that its methods update in place; each method is proved to leave the state
 * that the functions of TextChoiceSpec describe.
 *
 * UIKit is reduced to what the logic reads: whether a table view was found and
 * whether it allows multiple selection, whether a continue button was found and
 * whether it is enabled, and whether a search bar was created.
 */
module TextChoiceController {
  import opened Wrappers
  import Strings
  import opened TextChoiceSpec

  class TextChoiceQuestionController {
    /** The step handed to the view controller, when it is a QuestionStep. */
    var step: Option<QuestionStep>
    var questionStep: Option<QuestionStep>
    var tableView: Option<TableView>
    var hasContinueButton: bool
    var continueEnabled: bool
    var hasSearchBar: bool

    var textChoices: seq<TextChoice>
    var selectedChoices: seq<TextChoice>
    var searchChoices: seq<TextChoice>
    /** Answers of a previous result waiting to be restored; None once restored. */
    var answers: Option<seq<map<string, string>>>
    var isOtherCellSelected: bool
    var isSearching: bool
    var otherChoice: OtherChoice

    function Selected(): Selection
      reads this
    {
      Selection(selectedChoices, isOtherCellSelected)
    }

    /** The step's answer format when it is a text-choice format. */
    function Format(): Option<AnswerFormat>
      reads this
    {
      if questionStep.Some? then questionStep.value.answerFormat else None
    }

    function ListedChoices(): seq<TextChoice>
      reads this
    {
      Listed(textChoices, searchChoices, isSearching)
    }

    /** tableView(_:numberOfRowsInSection:). */
    function NumberOfRowsInSection(): (n: nat)
      reads this
      ensures n == |ListedChoices()| + (if otherChoice.isShowOtherCell then 1 else 0)
    {
      NumberOfRows(ListedChoices(), otherChoice)
    }

    /** init(step:). */
    constructor (step: Option<QuestionStep>)
      ensures this.step == step && questionStep == None && tableView == None
      ensures textChoices == [] && selectedChoices == [] && searchChoices == []
      ensures answers == Some([]) && !isOtherCellSelected && !isSearching
      ensures otherChoice == DefaultOtherChoice
      ensures !hasContinueButton && !hasSearchBar
    {
      this.step := step;
      questionStep := None;
      tableView := None;
      hasContinueButton := false;
      continueEnabled := false;
      hasSearchBar := false;
      textChoices := [];
      selectedChoices := [];
      searchChoices := [];
      answers := Some([]);
      isOtherCellSelected := false;
      isSearching := false;
      otherChoice := DefaultOtherChoice;
    }

    /** init(step:result:): records the choice answers of a previous result for stepDidChange to restore. */
    constructor WithResult(step: QuestionStep, result: Option<StepResult>)
      ensures this.step == Some(step) && questionStep == None && tableView == None
      ensures textChoices == [] && selectedChoices == [] && searchChoices == []
      ensures answers == Some(match StoredChoiceAnswers(step.identifier, result)
                              case Some(choices) => AnswerRecords(choices)
                              case None => [])
      ensures !isOtherCellSelected && !isSearching
      ensures otherChoice == DefaultOtherChoice
      ensures !hasContinueButton && !hasSearchBar
    {
      var records: seq<map<string, string>> := [];
      var stored := StoredChoiceAnswers(step.identifier, result);
      if stored.Some? {
        var choices := stored.value;
        for i := 0 to |choices|
          invariant records == AnswerRecords(choices[..i])
        {
          assert choices[..i + 1][..i] == choices[..i];
          match choices[i] {
            case StringAnswer(s) =>
              records := records + [map["value" := s]];
            case DictAnswer(d) =>
              if "text" in d {
                records := records + [map["otherChoiceText" := d["text"]]];
              } else if "other" in d {
                records := records + [map["otherValue" := d["other"]]];
              }
            case OtherKindAnswer =>
          }
        }
        assert choices[..|choices|] == choices;
      }
      this.step := Some(step);
      questionStep := None;
      tableView := None;
      hasContinueButton := false;
      continueEnabled := false;
      hasSearchBar := false;
      textChoices := [];
      selectedChoices := [];
      searchChoices := [];
      answers := Some(records);
      isOtherCellSelected := false;
      isSearching := false;
      otherChoice := DefaultOtherChoice;
    }

    /** The loop of stepDidChange: each recorded answer selects its choice or, failing that, the Other row. */
    method RestoreRecordedAnswers(records: seq<map<string, string>>)
      modifies this`selectedChoices, this`isOtherCellSelected, this`otherChoice
      ensures Restored(selectedChoices, isOtherCellSelected, otherChoice.otherChoiceText)
              == RestoreAnswers(old(Restored(selectedChoices, isOtherCellSelected, otherChoice.otherChoiceText)), textChoices, records)
      ensures otherChoice == old(otherChoice).(otherChoiceText := otherChoice.otherChoiceText)
    {
      ghost var start := Restored(selectedChoices, isOtherCellSelected, otherChoice.otherChoiceText);
      for i := 0 to |records|
        invariant Restored(selectedChoices, isOtherCellSelected, otherChoice.otherChoiceText)
                  == RestoreAnswers(start, textChoices, records[..i])
        invariant otherChoice == old(otherChoice).(otherChoiceText := otherChoice.otherChoiceText)
      {
        assert records[..i + 1][..i] == records[..i];
        var answer := records[i];
        var found := if "value" in answer then FirstWithValue(textChoices, answer["value"]) else None;
        if found.Some? {
          selectedChoices := selectedChoices + [found.value];
        } else {
          // no choice has this value: the Other row was selected
          isOtherCellSelected := true;
          if "otherChoiceText" in answer {
            otherChoice := otherChoice.(otherChoiceText := answer["otherChoiceText"]);
          }
        }
      }
      assert records[..|records|] == records;
    }

    /**
     * The model part of stepDidChange: takes the step's choices and Other
     * configuration, then restores the recorded answers and drops them.
     */
    method LoadStep(st: QuestionStep)
      modifies this`questionStep, this`textChoices, this`otherChoice, this`selectedChoices, this`isOtherCellSelected
      modifies this`answers
      ensures questionStep == Some(st) && answers == None
      ensures textChoices == (if st.answerFormat.Some? then st.answerFormat.value.textChoices else [])
      ensures Restored(selectedChoices, isOtherCellSelected, otherChoice.otherChoiceText)
              == RestoreAnswers(Restored(old(selectedChoices), old(isOtherCellSelected), st.otherChoice.otherChoiceText),
                                textChoices, old(answers).GetOr([]))
      ensures otherChoice == st.otherChoice.(otherChoiceText := otherChoice.otherChoiceText)
    {
      questionStep := Some(st);
      textChoices := if Format().Some? then Format().value.textChoices else [];
      otherChoice := st.otherChoice;
      if answers.Some? {
        RestoreRecordedAnswers(answers.value);
        answers := None;
      }
    }

    /** The table view, search bar and continue button that stepDidChange finds in the view. */
    method AttachViews(viewTable: Option<TableView>, viewHasContinueButton: bool)
      modifies this`tableView, this`hasSearchBar, this`hasContinueButton
      ensures tableView == viewTable.Or(old(tableView))
      ensures hasContinueButton == (old(hasContinueButton) || viewHasContinueButton)
      ensures hasSearchBar == (old(hasSearchBar) || IsShowSearchBar(textChoices, otherChoice))
    {
      tableView := viewTable.Or(tableView);
      hasSearchBar := hasSearchBar || IsShowSearchBar(textChoices, otherChoice);
      hasContinueButton := hasContinueButton || viewHasContinueButton;
    }

    /**
     * stepDidChange, run from viewDidLoad: loads the step when it is a question
     * step and the view is loaded, and picks up the table view, search bar and
     * continue button found in the view.
     */
    method StepDidChange(isViewLoaded: bool, viewTable: Option<TableView>, viewHasContinueButton: bool)
      modifies this`questionStep, this`textChoices, this`otherChoice, this`selectedChoices, this`isOtherCellSelected
      modifies this`answers, this`tableView, this`hasSearchBar, this`hasContinueButton
      ensures step.None? || !isViewLoaded ==> unchanged(this)
      ensures step.Some? && isViewLoaded ==>
        && questionStep == step && answers == None
        && textChoices == (if Format().Some? then Format().value.textChoices else [])
        && Restored(selectedChoices, isOtherCellSelected, otherChoice.otherChoiceText)
           == RestoreAnswers(Restored(old(selectedChoices), old(isOtherCellSelected), step.value.otherChoice.otherChoiceText),
                             textChoices, old(answers).GetOr([]))
        && otherChoice == step.value.otherChoice.(otherChoiceText := otherChoice.otherChoiceText)
        && tableView == viewTable.Or(old(tableView))
        && hasContinueButton == (old(hasContinueButton) || viewHasContinueButton)
        && hasSearchBar == (old(hasSearchBar) || IsShowSearchBar(textChoices, otherChoice))
    {
      if step.None? || !isViewLoaded {
        return;
      }
      LoadStep(step.value);
      AttachViews(viewTable, viewHasContinueButton);
    }

    /** The `result` getter. */
    method Result() returns (r: Option<StepResult>)
      ensures r == EncodeResult(if step.Some? then Some(step.value.identifier) else None, Format(),
                                selectedChoices, isOtherCellSelected, otherChoice)
    {
      if step.None? {
        return None;
      }
      var identifier := step.value.identifier;
      var choices: seq<ChoiceAnswer> := [];
      for i := 0 to |selectedChoices|
        invariant |choices| == i
        invariant forall k :: 0 <= k < i ==> choices[k] == StringAnswer(selectedChoices[k].value)
      {
        choices := choices + [StringAnswer(selectedChoices[i].value)];
      }
      assert choices == ChoiceValues(selectedChoices);
      if isOtherCellSelected {
        var otherChoiceDict: map<string, string>;
        // whether or not the Other text field is shown, the record is the same
        if otherChoice.isShowOtherField {
          if otherChoice.otherChoiceText == "" {
            otherChoiceDict := map["other" := otherChoice.value];
          } else {
            otherChoiceDict := map["other" := otherChoice.value, "text" := otherChoice.otherChoiceText];
          }
        } else {
          if otherChoice.otherChoiceText == "" {
            otherChoiceDict := map["other" := otherChoice.value];
          } else {
            otherChoiceDict := map["other" := otherChoice.value, "text" := otherChoice.otherChoiceText];
          }
        }
        assert otherChoiceDict == OtherRecord(otherChoice);
        choices := choices + [DictAnswer(otherChoiceDict)];
      }
      assert choices == EncodeAnswers(selectedChoices, isOtherCellSelected, otherChoice);
      var questionType := QuestionType(Format());
      r := Some(StepResult(identifier, [ChoiceQuestionResult(identifier, questionType, Some(choices))]));
    }

    /** updateForSingleSelection. */
    method UpdateForSingleSelection(choice: Option<TextChoice>)
      modifies this`selectedChoices
      ensures selectedChoices == SingleSelection(choice)
    {
      selectedChoices := [];
      if choice.None? {
        return;
      }
      selectedChoices := selectedChoices + [choice.value];
    }

    /** removeOtherChoiceIfExclusive: deselects Other when it or the tapped choice is exclusive. */
    method RemoveOtherChoiceIfExclusive(choice: Option<TextChoice>) returns (removed: bool)
      modifies this`isOtherCellSelected
      ensures removed <==> old(isOtherCellSelected) && (otherChoice.isExclusive || (choice.Some? && choice.value.exclusive))
      ensures isOtherCellSelected == OtherAfterExclusiveCheck(old(isOtherCellSelected), otherChoice.isExclusive, choice)
    {
      if (otherChoice.isExclusive && isOtherCellSelected) || (choice.Some? && choice.value.exclusive && isOtherCellSelected) {
        isOtherCellSelected := false;
        return true;
      }
      return false;
    }

    /** removeSelectedExclusiveChoices. */
    method RemoveSelectedExclusiveChoices(choice: Option<TextChoice>)
      modifies this`selectedChoices
      ensures selectedChoices == RemoveSelectedExclusive(old(selectedChoices), choice)
    {
      var exclusiveSelectedChoices := ExclusiveChoices(selectedChoices);
      if |exclusiveSelectedChoices| > 0 {
        UpdateForSingleSelection(choice);
      }
    }

    /** updateForMultipleSelection. */
    method UpdateForMultipleSelection(choice: Option<TextChoice>, didSelected: bool)
      modifies this`selectedChoices, this`isOtherCellSelected
      ensures Selected() == MultipleSelection(old(Selected()), otherChoice.isExclusive, choice, didSelected)
    {
      if choice.None? {
        // the Other row
        if otherChoice.isExclusive {
          selectedChoices := [];
        }
        RemoveSelectedExclusiveChoices(choice);
        return;
      }
      var c := choice.value;
      if c.exclusive {
        if didSelected {
          UpdateForSingleSelection(choice);
          var removed := RemoveOtherChoiceIfExclusive(choice);
          return;
        }
      } else {
        RemoveSelectedExclusiveChoices(choice);
        var removed := RemoveOtherChoiceIfExclusive(choice);
      }
      var choiceIndex := FirstIndex(selectedChoices, c);
      if choiceIndex.Some? {
        if !didSelected {
          selectedChoices := selectedChoices[..choiceIndex.value] + selectedChoices[choiceIndex.value + 1..];
        }
      } else if didSelected {
        selectedChoices := selectedChoices + [c];
      }
    }

    /** updateSelectedChoice: a nil choice stands for the Other row. */
    method UpdateSelectedChoice(choice: Option<TextChoice>, didSelected: bool)
      modifies this`selectedChoices, this`isOtherCellSelected
      ensures Selected() == UpdateSelection(old(Selected()), tableView, otherChoice.isExclusive, choice, didSelected)
    {
      if tableView.None? {
        return;
      }
      if tableView.value.allowsMultipleSelection {
        UpdateForMultipleSelection(choice, didSelected);
      } else {
        UpdateForSingleSelection(choice);
      }
    }

    /**
     * didTapOnOtherCell. Selecting Other while searching ends the editing of
     * the search bar, whose delegate (searchBarTextDidEndEditing) closes the
     * search.
     */
    method DidTapOnOtherCell(didSelect: bool)
      modifies this`selectedChoices, this`isOtherCellSelected, this`searchChoices, this`isSearching
      ensures Selected() == TapOther(old(Selected()), tableView, otherChoice.isExclusive, didSelect)
      ensures didSelect && old(isSearching) ==> searchChoices == [] && !isSearching
      ensures !(didSelect && old(isSearching)) ==> searchChoices == old(searchChoices) && isSearching == old(isSearching)
    {
      if didSelect {
        isOtherCellSelected := true;
        UpdateSelectedChoice(None, true);
        if isSearching {
          SearchBarTextDidEndEditing();
        }
      } else {
        isOtherCellSelected := false;
      }
    }

    /** updateNextOrContinueBtnState: Continue is enabled exactly when something is selected. */
    method UpdateNextOrContinueBtnState()
      modifies this`continueEnabled
      ensures continueEnabled == if hasContinueButton then ContinueEnabled(Selected()) else old(continueEnabled)
    {
      if !hasContinueButton {
        return;
      }
      if |selectedChoices| > 0 || isOtherCellSelected {
        continueEnabled := true;
      } else {
        continueEnabled := false;
      }
    }

    /**
     * goForward: refuses (and shows an alert) when Other is selected and mandatory
     * but its text is blank; otherwise the step advances.
     */
    method GoForward() returns (advanced: bool)
      modifies this`continueEnabled
      ensures advanced <==> !(isOtherCellSelected && otherChoice.isMandatory && Strings.IsBlank(otherChoice.otherChoiceText))
      ensures advanced ==> continueEnabled == old(continueEnabled)
      ensures !advanced ==> continueEnabled == if hasContinueButton then ContinueEnabled(Selected()) else old(continueEnabled)
    {
      RefusesIffBlankMandatoryOther(isOtherCellSelected, otherChoice);
      if Strings.Trim(otherChoice.otherChoiceText) == [] && isOtherCellSelected && otherChoice.isMandatory {
        UpdateNextOrContinueBtnState();
        return false;
      }
      return true;
    }

    /** skipForward: forgets every answer and the selection. */
    method SkipForward()
      modifies this`answers, this`selectedChoices, this`isOtherCellSelected
      ensures answers == Some([]) && selectedChoices == [] && !isOtherCellSelected
      ensures !ContinueEnabled(Selected())
      ensures EncodeAnswers(selectedChoices, isOtherCellSelected, otherChoice) == []
    {
      answers := Some([]);
      selectedChoices := [];
      isOtherCellSelected := false;
    }

    /** didEndEditing(with:): the Other row's text, trimmed. */
    method DidEndEditing(text: Option<string>)
      modifies this`otherChoice
      ensures otherChoice == old(otherChoice).(otherChoiceText := Strings.Trim(text.GetOr("")))
    {
      otherChoice := otherChoice.(otherChoiceText := Strings.Trim(text.GetOr("")));
    }

    /** isLastCell(indexPath:). */
    predicate IsLastRow(row: nat)
      reads this
    {
      IsLastCell(row, textChoices, searchChoices, isSearching)
    }

    /** tableView(_:didSelectRowAt:): the last row is the Other row, any other row a listed choice. */
    method DidSelectRowAt(row: nat)
      requires row < NumberOfRowsInSection()
      modifies this`selectedChoices, this`isOtherCellSelected, this`continueEnabled, this`searchChoices, this`isSearching
      ensures old(IsLastRow(row)) ==> Selected() == TapOther(old(Selected()), tableView, otherChoice.isExclusive, true)
      ensures old(IsLastRow(row)) && old(isSearching) ==> searchChoices == [] && !isSearching
      ensures !(old(IsLastRow(row)) && old(isSearching)) ==>
                searchChoices == old(searchChoices) && isSearching == old(isSearching)
      ensures !old(IsLastRow(row)) ==>
        && row < |ListedChoices()|
        && Selected() == UpdateSelection(old(Selected()), tableView, otherChoice.isExclusive, Some(ListedChoices()[row]), true)
      ensures continueEnabled == if hasContinueButton then ContinueEnabled(Selected()) else old(continueEnabled)
    {
      LastCellIsOtherRow(row, textChoices, searchChoices, isSearching, otherChoice);
      if IsLastRow(row) {
        DidTapOnOtherCell(true);
        UpdateNextOrContinueBtnState();
        return;
      }
      if isSearching {
        UpdateSelectedChoice(Some(searchChoices[row]), true);
      } else {
        UpdateSelectedChoice(Some(textChoices[row]), true);
      }
      UpdateNextOrContinueBtnState();
    }

    /** tableView(_:didDeselectRowAt:). */
    method DidDeselectRowAt(row: nat)
      requires row < NumberOfRowsInSection()
      modifies this`selectedChoices, this`isOtherCellSelected, this`continueEnabled, this`searchChoices, this`isSearching
      ensures searchChoices == old(searchChoices) && isSearching == old(isSearching)
      ensures old(IsLastRow(row)) ==> Selected() == TapOther(old(Selected()), tableView, otherChoice.isExclusive, false)
      ensures !old(IsLastRow(row)) ==>
        && row < |ListedChoices()|
        && Selected() == UpdateSelection(old(Selected()), tableView, otherChoice.isExclusive, Some(ListedChoices()[row]), false)
      ensures continueEnabled == if hasContinueButton then ContinueEnabled(Selected()) else old(continueEnabled)
    {
      LastCellIsOtherRow(row, textChoices, searchChoices, isSearching, otherChoice);
      if IsLastRow(row) {
        DidTapOnOtherCell(false);
      } else {
        if isSearching {
          UpdateSelectedChoice(Some(searchChoices[row]), false);
        } else {
          UpdateSelectedChoice(Some(textChoices[row]), false);
        }
      }
      UpdateNextOrContinueBtnState();
    }

    /** searchBar(_:textDidChange:). */
    method SearchBarTextDidChange(searchText: string)
      modifies this`searchChoices
      ensures searchChoices == SearchChoices(textChoices, searchText)
      ensures forall c :: c in searchChoices <==> c in textChoices && MatchesSearch(c, searchText)
    {
      if searchText == "" {
        searchChoices := textChoices;
        EmptySearchKeepsAll(textChoices);
      } else {
        searchChoices := FilterByText(textChoices, searchText);
      }
    }

    /** searchBarTextDidBeginEditing: every choice is listed while the search starts. */
    method SearchBarTextDidBeginEditing()
      modifies this`searchChoices, this`isSearching
      ensures searchChoices == textChoices && isSearching
      ensures ListedChoices() == textChoices
    {
      searchChoices := textChoices;
      isSearching := true;
    }

    /** searchBarTextDidEndEditing: the full list is shown again. */
    method SearchBarTextDidEndEditing()
      modifies this`searchChoices, this`isSearching
      ensures searchChoices == [] && !isSearching
      ensures ListedChoices() == textChoices
    {
      searchChoices := [];
      isSearching := false;
    }
  }
}
