# FDA MyStudies: text-choice questions, the active-user gate and the app list

This project models three pieces of the FDA MyStudies platform in Dafny and
proves what each of them promises.

- **Text-choice question controller** (iOS app). It keeps the participant's
  selection on a text-choice survey step:
  - single and multiple selection, exclusive choices and the optional "Other" row with its text field;
  - the step result it encodes and the restoring of a previous result;
  - the row layout, the search bar and its filter;
  - the Continue button and the guard on going forward.

  `TextChoiceSpec` states these rules as pure functions over values. The class
  `TextChoiceController.TextChoiceQuestionController` holds the controller's
  fields (`selectedChoices`, `isOtherCellSelected`, `answers`, `otherChoice`,
  `searchChoices`, …). Its methods update those fields in place, and each is
  proved to leave exactly the state the functions describe.
- **Active-user filter** (participant manager service). A servlet filter that
  forwards every request except those on a protected (path, method) pair. For
  those, the user named by the user-id header must exist and be active;
  otherwise the filter answers `USER_NOT_EXISTS` or `USER_NOT_ACTIVE`. Module
  `UserFilter` holds the class `ActiveUserFilter`:
  - the protected-template map is a field;
  - the user repository is a map from user id to active flag;
  - each error code's HTTP status is a function given to the filter.
- **App list** (participant manager web app). The site coordinator's paged
  list of apps: a case-insensitive query filter, "load more" paging, the
  multiple-studies warning, enrollment colour bands and permission checks.
  Module `AppList` holds the class `AppListComponent`. Its methods turn the
  rxjs streams into events: a new search parameter, a page request, the
  service's response, and a new query that makes the current stream emit
  again.

Shared pieces:
- `Strings` holds ASCII whitespace trimming, case mapping and substring search.
- `Wrappers` holds `Option`.

Paths below are relative to the repository root. Abbreviations:
- `Swift` = `iOS/MyStudies/MyStudies/Controllers/StudyUI/ActivityUI/QuestionStepController/TextChoiceQuestionController.swift`;
- `Java` = `participant-manager-module/participant-manager-service/src/main/java/com/google/cloud/healthcare/fdamystudies/filter/ActiveUserFilter.java`;
- `TS` = `participant-manager/src/app/site-coordinator/apps/app-list/app-list.component.ts`.

The table's source column spells the paths out in full.

## Model

| member | source | states |
|---|---|---|
| Strings.TrimSpec | iOS/MyStudies/MyStudies/Controllers/StudyUI/ActivityUI/QuestionStepController/TextChoiceQuestionController.swift:820 | trimming leaves the text between a blank head and a blank tail, with whitespace at neither end, and gives the empty string exactly when the text is blank |
| Strings.ContainsAt | participant-manager/src/app/site-coordinator/apps/app-list/app-list.component.ts:64-65 | the recursive substring test holds exactly when the query is a prefix of some suffix of the text, which is what `includes`/`contains` means |
| Strings.ToUpperIdempotent | participant-manager-module/participant-manager-service/src/main/java/com/google/cloud/healthcare/fdamystudies/filter/ActiveUserFilter.java:104 | upper-casing an upper-cased method changes nothing |
| TextChoiceSpec.ExclusiveChoices | iOS/MyStudies/MyStudies/Controllers/StudyUI/ActivityUI/QuestionStepController/TextChoiceQuestionController.swift:522 | the filtered list holds exactly the exclusive selected choices, and it is non-empty exactly when some selected choice is exclusive |
| TextChoiceSpec.FirstIndex | iOS/MyStudies/MyStudies/Controllers/StudyUI/ActivityUI/QuestionStepController/TextChoiceQuestionController.swift:552 | `firstIndex(of:)` is absent exactly when the choice is not selected; otherwise it points at the choice's first occurrence |
| TextChoiceSpec.SingleModeSelection | iOS/MyStudies/MyStudies/Controllers/StudyUI/ActivityUI/QuestionStepController/TextChoiceQuestionController.swift:503-507 | in single-selection mode a tapped choice becomes the whole selection, and tapping the Other row empties the choices and marks Other selected |
| TextChoiceSpec.MultipleModeExclusiveChoice | iOS/MyStudies/MyStudies/Controllers/StudyUI/ActivityUI/QuestionStepController/TextChoiceQuestionController.swift:510-519 | in multiple mode, selecting an exclusive choice leaves exactly that choice selected and Other deselected |
| TextChoiceSpec.MultipleModeNonExclusiveChoice | iOS/MyStudies/MyStudies/Controllers/StudyUI/ActivityUI/QuestionStepController/TextChoiceQuestionController.swift:521-558 | in multiple mode, selecting a non-exclusive choice leaves it selected with no exclusive choice beside it; Other stays selected only if it is not exclusive; with no exclusive choice selected before, the earlier selection is kept and the choice appended once |
| TextChoiceSpec.MultipleModeOther | iOS/MyStudies/MyStudies/Controllers/StudyUI/ActivityUI/QuestionStepController/TextChoiceQuestionController.swift:531-537 | in multiple mode, tapping Other marks it selected; an exclusive Other clears all choices; no exclusive choice stays selected; a non-exclusive Other otherwise keeps the choices |
| TextChoiceSpec.NoTableViewNoChange | iOS/MyStudies/MyStudies/Controllers/StudyUI/ActivityUI/QuestionStepController/TextChoiceQuestionController.swift:561 | without a table view the selection does not change |
| TextChoiceSpec.RemoveAtKeepsDistinct | iOS/MyStudies/MyStudies/Controllers/StudyUI/ActivityUI/QuestionStepController/TextChoiceQuestionController.swift:553-554 | removing the found choice from a duplicate-free selection removes it entirely and keeps every other choice |
| TextChoiceSpec.AppendAbsentKeepsDistinct | iOS/MyStudies/MyStudies/Controllers/StudyUI/ActivityUI/QuestionStepController/TextChoiceQuestionController.swift:556-557 | appending a choice that is not selected keeps the selection duplicate-free |
| TextChoiceSpec.ToggleKeepsDistinct | iOS/MyStudies/MyStudies/Controllers/StudyUI/ActivityUI/QuestionStepController/TextChoiceQuestionController.swift:552-558 | the add-or-remove step keeps the selection duplicate-free; deselecting removes the choice and keeps the others |
| TextChoiceSpec.UpdateKeepsDistinct | iOS/MyStudies/MyStudies/Controllers/StudyUI/ActivityUI/QuestionStepController/TextChoiceQuestionController.swift:501-573 | no tap, on a choice or on the Other row, ever puts a choice into the selection twice |
| TextChoiceSpec.MultipleModeDeselect | iOS/MyStudies/MyStudies/Controllers/StudyUI/ActivityUI/QuestionStepController/TextChoiceQuestionController.swift:540-558 | deselecting a choice in multiple mode removes it; the other choices stay unless an exclusive choice was selected and collapsed the selection first |
| TextChoiceSpec.SelectingEnablesContinue | iOS/MyStudies/MyStudies/Controllers/StudyUI/ActivityUI/QuestionStepController/TextChoiceQuestionController.swift:661-671 | with a table view, selecting a choice puts it in the selection, and selecting a choice or Other enables Continue |
| TextChoiceSpec.UpdateStaysWithinChoices | iOS/MyStudies/MyStudies/Controllers/StudyUI/ActivityUI/QuestionStepController/TextChoiceQuestionController.swift:501-573 | when the selection and the tapped choice come from the step's choices, the new selection does too |
| TextChoiceSpec.RefusesIffBlankMandatoryOther | iOS/MyStudies/MyStudies/Controllers/StudyUI/ActivityUI/QuestionStepController/TextChoiceQuestionController.swift:596-599 | goForward's guard (trimmed text empty, Other selected, Other mandatory) holds exactly when Other is selected and mandatory and its text is blank |
| TextChoiceSpec.LastCellIsOtherRow | iOS/MyStudies/MyStudies/Controllers/StudyUI/ActivityUI/QuestionStepController/TextChoiceQuestionController.swift:487-495 | for a row the table shows, `isLastCell` holds exactly for the final row when the Other row is shown; any other row indexes a listed choice |
| TextChoiceSpec.SearchBarOverTenRows | iOS/MyStudies/MyStudies/Controllers/StudyUI/ActivityUI/QuestionStepController/TextChoiceQuestionController.swift:193-199 | the search bar is shown exactly when the unfiltered table has more than ten rows, counting the Other row |
| TextChoiceSpec.FilterByText | iOS/MyStudies/MyStudies/Controllers/StudyUI/ActivityUI/QuestionStepController/TextChoiceQuestionController.swift:835-837 | the search keeps exactly the choices whose lower-cased text contains the lower-cased search text, and never more than there were |
| TextChoiceSpec.FilterByTextAppend | iOS/MyStudies/MyStudies/Controllers/StudyUI/ActivityUI/QuestionStepController/TextChoiceQuestionController.swift:835-837 | the search keeps the choices' order: filtering a concatenation filters each part |
| TextChoiceSpec.EmptySearchKeepsAll | iOS/MyStudies/MyStudies/Controllers/StudyUI/ActivityUI/QuestionStepController/TextChoiceQuestionController.swift:832-838 | an empty search text keeps every choice, so the explicit empty-text branch agrees with the filter |
| TextChoiceSpec.EncodeAnswersShape | iOS/MyStudies/MyStudies/Controllers/StudyUI/ActivityUI/QuestionStepController/TextChoiceQuestionController.swift:119-154 | the answers are the selected values in order, followed by exactly one Other record when Other is selected; that record holds the Other value, and holds "text" exactly when the Other text is non-empty |
| TextChoiceSpec.QuestionTypeFollowsStyle | iOS/MyStudies/MyStudies/Controllers/StudyUI/ActivityUI/QuestionStepController/TextChoiceQuestionController.swift:156-160 | the question type is multiple choice exactly when the answer format's style is |
| TextChoiceSpec.AnswerRecordsAppend | iOS/MyStudies/MyStudies/Controllers/StudyUI/ActivityUI/QuestionStepController/TextChoiceQuestionController.swift:215-227 | init(step:result:) records the answers one at a time and in order |
| TextChoiceSpec.AnswerRecordsOfValues | iOS/MyStudies/MyStudies/Controllers/StudyUI/ActivityUI/QuestionStepController/TextChoiceQuestionController.swift:217-218 | each string answer becomes one "value" record |
| TextChoiceSpec.RestoreAnswersAppend | iOS/MyStudies/MyStudies/Controllers/StudyUI/ActivityUI/QuestionStepController/TextChoiceQuestionController.swift:285-297 | stepDidChange restores the records one at a time and in order |
| TextChoiceSpec.FirstWithValueFindsChoice | iOS/MyStudies/MyStudies/Controllers/StudyUI/ActivityUI/QuestionStepController/TextChoiceQuestionController.swift:286-287 | with distinct choice values, looking a choice up by its value finds that choice |
| TextChoiceSpec.RestoreValueRecords | iOS/MyStudies/MyStudies/Controllers/StudyUI/ActivityUI/QuestionStepController/TextChoiceQuestionController.swift:285-290 | restoring the value records of choices of the step appends those choices to the selection, in order |
| TextChoiceSpec.OtherRecordRestores | iOS/MyStudies/MyStudies/Controllers/StudyUI/ActivityUI/QuestionStepController/TextChoiceQuestionController.swift:219-220 | restoring an encoded Other record marks Other selected and brings back its text when that was non-empty |
| TextChoiceSpec.RestoreRoundTrip | iOS/MyStudies/MyStudies/Controllers/StudyUI/ActivityUI/QuestionStepController/TextChoiceQuestionController.swift:284-297 | restoring the encoded answers gives back the same choices in the same order and the Other mark; a non-empty Other text comes back (distinct choice values assumed) |
| TextChoiceSpec.ResultRoundTrip | iOS/MyStudies/MyStudies/Controllers/StudyUI/ActivityUI/QuestionStepController/TextChoiceQuestionController.swift:206-230 | a result built by the getter and handed back to init(step:result:) yields its own answers, and stepDidChange then restores the selection it was built from |
| TextChoiceSpec.UnmatchedAnswerSelectsOther | iOS/MyStudies/MyStudies/Controllers/StudyUI/ActivityUI/QuestionStepController/TextChoiceQuestionController.swift:291-296 | a stored string that matches no choice, and any Other record, marks Other selected and leaves the choices alone |
| TextChoiceSpec.NoMatchingValue | iOS/MyStudies/MyStudies/Controllers/StudyUI/ActivityUI/QuestionStepController/TextChoiceQuestionController.swift:286-287 | a value no choice carries finds no choice |
| TextChoiceController.TextChoiceQuestionController.constructor | iOS/MyStudies/MyStudies/Controllers/StudyUI/ActivityUI/QuestionStepController/TextChoiceQuestionController.swift:202-204 | a new controller has no choices, an empty answer list, nothing selected and the default Other configuration |
| TextChoiceController.TextChoiceQuestionController.WithResult | iOS/MyStudies/MyStudies/Controllers/StudyUI/ActivityUI/QuestionStepController/TextChoiceQuestionController.swift:206-230 | the recorded answers are the records of the stored choice answers of the step's own result, or none when there are none |
| TextChoiceController.TextChoiceQuestionController.RestoreRecordedAnswers | iOS/MyStudies/MyStudies/Controllers/StudyUI/ActivityUI/QuestionStepController/TextChoiceQuestionController.swift:285-297 | the loop leaves the selection, Other mark and Other text that restoring the records in order gives; the rest of the Other configuration is untouched |
| TextChoiceController.TextChoiceQuestionController.LoadStep | iOS/MyStudies/MyStudies/Controllers/StudyUI/ActivityUI/QuestionStepController/TextChoiceQuestionController.swift:274-299 | the step's choices and Other configuration are taken, the recorded answers are restored on top of them, then dropped |
| TextChoiceController.TextChoiceQuestionController.AttachViews | iOS/MyStudies/MyStudies/Controllers/StudyUI/ActivityUI/QuestionStepController/TextChoiceQuestionController.swift:300-318 | the table view found in the view replaces the old one, a search bar is added when the step calls for one, and a continue button found is kept |
| TextChoiceController.TextChoiceQuestionController.StepDidChange | iOS/MyStudies/MyStudies/Controllers/StudyUI/ActivityUI/QuestionStepController/TextChoiceQuestionController.swift:270-318 | nothing changes without a question step or a loaded view; otherwise the step is loaded and restored, and the table view, search bar and continue button found are kept |
| TextChoiceController.TextChoiceQuestionController.Result | iOS/MyStudies/MyStudies/Controllers/StudyUI/ActivityUI/QuestionStepController/TextChoiceQuestionController.swift:112-166 | the getter builds exactly the encoded result: none without a step, else one choice result carrying the encoded answers and the question type |
| TextChoiceController.TextChoiceQuestionController.UpdateForSingleSelection | iOS/MyStudies/MyStudies/Controllers/StudyUI/ActivityUI/QuestionStepController/TextChoiceQuestionController.swift:503-507 | the selection becomes the tapped choice alone, or empty for the Other row |
| TextChoiceController.TextChoiceQuestionController.RemoveOtherChoiceIfExclusive | iOS/MyStudies/MyStudies/Controllers/StudyUI/ActivityUI/QuestionStepController/TextChoiceQuestionController.swift:510-519 | Other is deselected, and true returned, exactly when it was selected and either it or the tapped choice is exclusive |
| TextChoiceController.TextChoiceQuestionController.RemoveSelectedExclusiveChoices | iOS/MyStudies/MyStudies/Controllers/StudyUI/ActivityUI/QuestionStepController/TextChoiceQuestionController.swift:521-527 | a selected exclusive choice collapses the selection to the tapped choice |
| TextChoiceController.TextChoiceQuestionController.UpdateForMultipleSelection | iOS/MyStudies/MyStudies/Controllers/StudyUI/ActivityUI/QuestionStepController/TextChoiceQuestionController.swift:529-559 | the new selection and Other mark are those of the multiple-mode rules |
| TextChoiceController.TextChoiceQuestionController.UpdateSelectedChoice | iOS/MyStudies/MyStudies/Controllers/StudyUI/ActivityUI/QuestionStepController/TextChoiceQuestionController.swift:501-573 | the new selection and Other mark are those of the selection rules for the table's mode, and unchanged without a table view |
| TextChoiceController.TextChoiceQuestionController.DidTapOnOtherCell | iOS/MyStudies/MyStudies/Controllers/StudyUI/ActivityUI/QuestionStepController/TextChoiceQuestionController.swift:636-659 | selecting Other marks it and applies the selection rules to the Other row, and while searching it ends the search (results emptied, search off); deselecting only clears the mark and leaves the search alone |
| TextChoiceController.TextChoiceQuestionController.UpdateNextOrContinueBtnState | iOS/MyStudies/MyStudies/Controllers/StudyUI/ActivityUI/QuestionStepController/TextChoiceQuestionController.swift:661-671 | Continue becomes enabled exactly when a choice or Other is selected (when there is a button) |
| TextChoiceController.TextChoiceQuestionController.GoForward | iOS/MyStudies/MyStudies/Controllers/StudyUI/ActivityUI/QuestionStepController/TextChoiceQuestionController.swift:595-627 | the step advances unless Other is selected, mandatory and blank; when it refuses, the Continue state is refreshed |
| TextChoiceController.TextChoiceQuestionController.SkipForward | iOS/MyStudies/MyStudies/Controllers/StudyUI/ActivityUI/QuestionStepController/TextChoiceQuestionController.swift:586-593 | skipping clears the answers and the selection, so the Continue rule now gives off (the button itself is not refreshed) and the result carries no answers |
| TextChoiceController.TextChoiceQuestionController.DidEndEditing | iOS/MyStudies/MyStudies/Controllers/StudyUI/ActivityUI/QuestionStepController/TextChoiceQuestionController.swift:818-822 | the Other text becomes the trimmed typed text (empty when none), the rest of the Other configuration unchanged |
| TextChoiceController.TextChoiceQuestionController.NumberOfRowsInSection | iOS/MyStudies/MyStudies/Controllers/StudyUI/ActivityUI/QuestionStepController/TextChoiceQuestionController.swift:677-686 | one row per listed choice, plus one when the Other row is shown |
| TextChoiceController.TextChoiceQuestionController.DidSelectRowAt | iOS/MyStudies/MyStudies/Controllers/StudyUI/ActivityUI/QuestionStepController/TextChoiceQuestionController.swift:747-769 | the last row selects Other and, while searching, ends the search; any other row indexes a listed choice and selects it, leaving the search alone; the Continue state follows the new selection |
| TextChoiceController.TextChoiceQuestionController.DidDeselectRowAt | iOS/MyStudies/MyStudies/Controllers/StudyUI/ActivityUI/QuestionStepController/TextChoiceQuestionController.swift:771-788 | the last row deselects Other; any other row indexes a listed choice and deselects it; the search is left alone; the Continue state follows |
| TextChoiceController.TextChoiceQuestionController.SearchBarTextDidChange | iOS/MyStudies/MyStudies/Controllers/StudyUI/ActivityUI/QuestionStepController/TextChoiceQuestionController.swift:828-840 | the search results are exactly the choices matching the search text (all of them for an empty text) |
| TextChoiceController.TextChoiceQuestionController.SearchBarTextDidBeginEditing | iOS/MyStudies/MyStudies/Controllers/StudyUI/ActivityUI/QuestionStepController/TextChoiceQuestionController.swift:842-851 | searching starts with every choice listed |
| TextChoiceController.TextChoiceQuestionController.SearchBarTextDidEndEditing | iOS/MyStudies/MyStudies/Controllers/StudyUI/ActivityUI/QuestionStepController/TextChoiceQuestionController.swift:853-858 | ending the search empties the results and lists all choices again |
| UserFilter.PathMatches | participant-manager-module/participant-manager-service/src/main/java/com/google/cloud/healthcare/fdamystudies/filter/ActiveUserFilter.java:114-119 | a literal template with the optional trailing separator matches exactly the paths that start with the template and end there or with one more "/" |
| UserFilter.ActiveUserFilter.constructor | participant-manager-module/participant-manager-service/src/main/java/com/google/cloud/healthcare/fdamystudies/filter/ActiveUserFilter.java:56 | the protected table starts empty |
| UserFilter.ActiveUserFilter.Init | participant-manager-module/participant-manager-service/src/main/java/com/google/cloud/healthcare/fdamystudies/filter/ActiveUserFilter.java:62-67 | init adds the entry context path + "/locations" with the single method POST |
| UserFilter.ActiveUserFilter.ValidatePathAndHttpMethod | participant-manager-module/participant-manager-service/src/main/java/com/google/cloud/healthcare/fdamystudies/filter/ActiveUserFilter.java:103-119 | the search over the table returns true exactly when some entry lists the upper-cased method and its template matches the path, optionally with a trailing "/" |
| UserFilter.ActiveUserFilter.SetErrorResponse | participant-manager-module/participant-manager-service/src/main/java/com/google/cloud/healthcare/fdamystudies/filter/ActiveUserFilter.java:121-127 | the error response carries the code's status, a JSON content type and the code itself |
| UserFilter.ActiveUserFilter.DoFilter | participant-manager-module/participant-manager-service/src/main/java/com/google/cloud/healthcare/fdamystudies/filter/ActiveUserFilter.java:73-101 | an unprotected request is forwarded; a protected one gets USER_NOT_EXISTS for an unknown user, USER_NOT_ACTIVE for an inactive one, and is forwarded exactly when its user exists and is active |
| UserFilter.InitProtectsLocationsPost | participant-manager-module/participant-manager-service/src/main/java/com/google/cloud/healthcare/fdamystudies/filter/ActiveUserFilter.java:63-67 | after init, a request is protected exactly when its upper-cased method is POST and its path is the locations endpoint, with or without a trailing "/" |
| UserFilter.MethodCaseInsensitive | participant-manager-module/participant-manager-service/src/main/java/com/google/cloud/healthcare/fdamystudies/filter/ActiveUserFilter.java:104-106 | a request is protected exactly when the same request with its method upper-cased is |
| UserFilter.LowerCasePostProtected | participant-manager-module/participant-manager-service/src/main/java/com/google/cloud/healthcare/fdamystudies/filter/ActiveUserFilter.java:104-116 | a lower-case "post" to the locations endpoint with a trailing "/" is protected after init |
| UserFilter.GetNotProtected | participant-manager-module/participant-manager-service/src/main/java/com/google/cloud/healthcare/fdamystudies/filter/ActiveUserFilter.java:64-66 | a GET to the locations endpoint is not protected after init, so it is forwarded without a lookup |
| AppList.FilterApps | participant-manager/src/app/site-coordinator/apps/app-list/app-list.component.ts:62-66 | the query filter keeps an order-preserving subsequence of the apps: exactly those whose lower-cased name or custom id contains the lower-cased query |
| AppList.FilterAppsAppend | participant-manager/src/app/site-coordinator/apps/app-list/app-list.component.ts:118-122 | filtering a concatenation filters each part, so earlier apps come first |
| AppList.FilterAppsIdempotent | participant-manager/src/app/site-coordinator/apps/app-list/app-list.component.ts:62-66 | filtering an already filtered list by the same query changes nothing |
| AppList.EmptyQueryKeepsIdentified | participant-manager/src/app/site-coordinator/apps/app-list/app-list.component.ts:63-65 | the empty query keeps exactly the apps that have a name or a custom id |
| AppList.MergeKeepsLoadedFirst | participant-manager/src/app/site-coordinator/apps/app-list/app-list.component.ts:108-122 | loading more lists the old apps, then the new page, each filtered; an already filtered list is a prefix of the merged one |
| AppList.ProgressBarColor | participant-manager/src/app/site-coordinator/apps/app-list/app-list.component.ts:79-91 | green above 70, orange from 30 to 70 inclusive, red otherwise, including a missing percentage or 0 |
| AppList.CheckEditPermission | participant-manager/src/app/site-coordinator/apps/app-list/app-list.component.ts:92-94 | only the view-and-edit code may edit, so whoever may edit may also view |
| AppList.CheckViewPermission | participant-manager/src/app/site-coordinator/apps/app-list/app-list.component.ts:95-99 | exactly the view-only and view-and-edit codes may view |
| AppList.ShowsWarning | participant-manager/src/app/site-coordinator/apps/app-list/app-list.component.ts:57-61 | the multiple-studies warning never shows for a super admin, and for anyone else shows exactly when they manage at most one study |
| AppList.EditImpliesView | participant-manager/src/app/site-coordinator/apps/app-list/app-list.component.ts:92-99 | edit permission implies view permission; view permission is edit permission or the view-only code |
| AppList.AppListComponent.constructor | participant-manager/src/app/site-coordinator/apps/app-list/app-list.component.ts:16-21 | the component starts with an empty query and search value, no list, "load more" on and nothing emitted |
| AppList.AppListComponent.GetApps | participant-manager/src/app/site-coordinator/apps/app-list/app-list.component.ts:49-51 | getApps asks for `limit` apps from offset 0 with the current search value |
| AppList.AppListComponent.OnSearchParameter | participant-manager/src/app/site-coordinator/apps/app-list/app-list.component.ts:40-45 | a new search term resets the list and refetches from offset 0 with that term |
| AppList.AppListComponent.LoadMoreSites | participant-manager/src/app/site-coordinator/apps/app-list/app-list.component.ts:101-104 | loading more asks for the page at offset equal to the current list's length, and fails without changing anything when no list is loaded |
| AppList.AppListComponent.Emit | participant-manager/src/app/site-coordinator/apps/app-list/app-list.component.ts:54-72 | an emission shows the first page filtered, or the loaded list and the page merged and filtered; "load more" is on exactly when the length is a multiple of `limit`, 0 included; the warning shows exactly for a non-super-admin with fewer than two studies |
| AppList.AppListComponent.Deliver | participant-manager/src/app/site-coordinator/apps/app-list/app-list.component.ts:103-126 | the service's answer is kept and emitted through the current pipeline; without a pipeline nothing happens; the first answer to a "load more" request shows the current list and the page merged as the source merges them; the awaited-base invariant is kept |
| AppList.AppListComponent.Reemit | participant-manager/src/app/site-coordinator/apps/app-list/app-list.component.ts:50-74 | `combineLatest` runs the current pipeline's mapping again on its last answer under the current query; without an answer nothing changes |
| AppList.AppListComponent.Search | participant-manager/src/app/site-coordinator/apps/app-list/app-list.component.ts:76-78 | the trimmed query is published, and a pipeline that has its answer emits again under it |
| AppList.MergeAsWritten | participant-manager/src/app/site-coordinator/apps/app-list/app-list.component.ts:107-125 | the as-written mapping shows the filtered current list followed by the filtered page, so it is never longer than the two together |
| AppList.ReemissionDuplicatesAsWritten | participant-manager/src/app/site-coordinator/apps/app-list/app-list.component.ts:108-112 | merging the page into the current list, as written, shows [A, B] and then [A, B, B] on the next emission |
| AppList.ReemissionNotDistinctAsWritten | participant-manager/src/app/site-coordinator/apps/app-list/app-list.component.ts:108-112 | the as-written merge turns a loaded list and a page of distinct apps into a list that repeats an app |
| AppList.FilterKeepsDistinct | participant-manager/src/app/site-coordinator/apps/app-list/app-list.component.ts:118-122 | filtering never repeats an app |
| AppList.ReemissionStable | participant-manager/src/app/site-coordinator/apps/app-list/app-list.component.ts:108-122 | with the list captured when the page is requested, each emission shows the loaded apps, then the page's, under the latest query, and repeats no app when the two are distinct |

## Left out

- UIKit is reduced to what the logic reads: whether a table view, continue
  button or search bar exists, and the table's selection mode.
- The table's selection mode is part of the `TableView` the controller is
  given. `viewDidAppear` sets it from the answer style (multiple selection
  exactly for a multiple-choice style), and the model does not tie the two
  together. Alerts,
  reloads, scrolling, first responders, header layout, Analytics,
  NotificationCenter and the delayed scroll after a search are not modelled.
- ResearchKit's superclass behaviour (`super.result`, `goForward`,
  `skipForward`) is not modelled. `GoForward` returns whether the step
  advances, and `Result` builds the step result from the identifier.
- TextChoiceSpec.StoredChoiceAnswers / RestoreAnswers: choice values are
  strings, as the source itself assumes with `as! String` when it restores
  answers. A choice with a non-string value would trap there, and a
  non-string answer is skipped when the result is read back, so the round
  trips rely on that typing. Every child of a step result is a choice
  question result with its own identifier, and `FindResult` takes the first
  one with the step's identifier; a child result of another kind, which the
  source's `as? ORKChoiceQuestionResult` ignores, is not modelled.
- A step that is not a `QuestionStep`, and an answer format that is not a
  text-choice format, are represented as `None`.
- `DidSelectRowAt` and `DidDeselectRowAt` assume the tapped row's cell is
  visible. The source skips a regular row whose cell is off screen, because it
  casts `cellForRow` to a cell type.
- Whitespace, lower- and upper-casing are ASCII only. Swift's
  `localizedLowercase`, JavaScript's `toLowerCase`, Java's locale-dependent
  `toUpperCase` and Unicode whitespace are not modelled.
- UserFilter.PathMatches: only literal URI templates are modelled, as a
  template with an optional trailing "/". Spring's `PathPattern` variables,
  wildcards, matrix parameters and percent-decoding are not.
- The user repository is a map from id to active flag. A request without the
  user-id header reaches `findById(null)`, which the repository rejects. The
  model names that outcome `LookupFailed` instead of treating the user as
  missing.
- The HTTP status of each `ErrorCode` is a function given to the filter,
  because the `ErrorCode` enum is not part of this model. Writing the JSON
  body to the response stream is not modelled either.
- The numeric values of the `Permission` enum are parameters
  (`PermissionCodes`), because that enum is not part of this model.
- rxjs streaming is modelled as events on the component. The toastr message
  and `console.log` are not modelled; the warning is returned as a flag.
  `manageAppsBackup` as the empty object `{}` is `None`.
- `enrollmentPercentage` is a real number; `NaN` is not modelled.
- AppList.AppListComponent.Emit: a `loadMoreSites` emission merges the page
  into the list captured when the page was requested, not into the current
  list as the source does. See Findings.
- AppList.AppListComponent.Reemit: re-emits through the same corrected merge
  as `Emit`, so a new query does not append the page a second time.
- AppList.AppListComponent.Search: re-emits through `Reemit`, so it uses the
  corrected merge as well. `AppList.MergeAsWritten` keeps the source's merge.
- AppList.AppListComponent.Deliver: emits through `Emit` and its corrected
  merge. On the first answer to a "load more" request this is the source's
  merge, because the list the request captured is still the current one
  (`AwaitedBaseIsCurrent`). Only a repeated answer through the same
  pipeline would differ.

## Findings

| source | as written | input that shows it | evidently intended | confidence | as-written member | corrected member |
|---|---|---|---|---|---|---|
| participant-manager/src/app/site-coordinator/apps/app-list/app-list.component.ts:108-112 | the `loadMoreSites` pipeline appends the page to `this.manageAppsBackup.apps`, which its own previous emission already replaced with the merged list; `combineLatest` runs the mapping again on every new query | list [A] loaded, page [B] delivered (shows [A, B]), then `search("")`: the list becomes [A, B, B] | a new query re-filters the loaded apps and the page, without appending the page again | not executed | AppList.ReemissionDuplicatesAsWritten | AppList.ReemissionStable |
