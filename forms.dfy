/** The agenda form's multi-choice fields. The care codes and the weekday codes a user ticks are
    stored as one `", "`-joined string (`clean_cares`, `clean_day_per_week`), and the views split that
    string on `", "` to refill the form. The edit form adds a three-way choice of which occurrences
    an edit applies to. */
module AgendaForms {
  import opened Text

  /** The keys of `CARES_CHOICES`, in table order. */
  const CaresCodes: seq<string> :=
    ["AC", "ALIM", "BS", "F", "GC", "IM", "INJ", "MÉDIC", "PERF", "PST", "Pilulier", "Poche", "SC", "Fils"]

  /** The keys of `DAYS_CHOICES` (0 Monday … 6 Sunday) as the multiple-choice field hands them back:
      as strings. */
  const DaysCodes: seq<string> := ["0", "1", "2", "3", "4", "5", "6"]

  /** The keys of `EVENT_CHOICES`, in table order. */
  const EventChoices: seq<string> := ["thisone", "thisone_after", "allevent"]

  /** Every ticked value is one of the field's choices (what the field's validation guarantees of
      `cleaned_data`). */
  predicate Chosen(selected: seq<string>, choices: seq<string>)
  {
    forall k :: 0 <= k < |selected| ==> selected[k] in choices
  }

  /** No key of either table contains a comma, so none contains the separator ", ". */
  lemma CodesHaveNoSeparator()
    ensures forall k :: 0 <= k < |CaresCodes| ==> !Contains(CaresCodes[k], ", ") && CaresCodes[k] != ""
    ensures forall k :: 0 <= k < |DaysCodes| ==> !Contains(DaysCodes[k], ", ") && DaysCodes[k] != ""
  {
    forall k | 0 <= k < |CaresCodes| ensures !Contains(CaresCodes[k], ", ") {
      CommaFreeHasNoCommaSpace(CaresCodes[k]);
    }
    forall k | 0 <= k < |DaysCodes| ensures !Contains(DaysCodes[k], ", ") {
      CommaFreeHasNoCommaSpace(DaysCodes[k]);
    }
  }

  /** A selection of table keys, joined with ", ", splits back into the same selection. */
  lemma {:induction false} ChosenRoundTrip(selected: seq<string>, choices: seq<string>)
    requires |selected| > 0 && Chosen(selected, choices)
    requires forall k :: 0 <= k < |choices| ==> !Contains(choices[k], ", ") && choices[k] != ""
    ensures Split(Join(selected, ", "), ", ") == selected
    ensures Join(selected, ", ") != ""
  {
    forall k | 0 <= k < |selected| ensures SeparatorSafe(selected[k], ", ") {
      CommaSpaceSafe(selected[k]);
    }
    SplitJoin(selected, ", ");
    assert selected[0] != "";
    if |selected| > 1 {
      assert Join(selected, ", ") == selected[0] + ", " + Join(selected[1..], ", ");
    }
  }

  /** `clean_cares`: the ticked care codes joined with ", ", in the order they were ticked. The views'
      `event.cares.split(", ")` gives the selection back. */
  function CleanCares(selected: seq<string>): (r: string)
    ensures |selected| == 0 ==> r == ""
    ensures |selected| > 0 && Chosen(selected, CaresCodes) ==> Split(r, ", ") == selected
  {
    CodesHaveNoSeparator();
    if |selected| > 0 && Chosen(selected, CaresCodes) then ChosenRoundTrip(selected, CaresCodes); Join(selected, ", ")
    else Join(selected, ", ")
  }

  /** `clean_day_per_week`: the ticked weekday codes joined with ", ", in the order they were ticked.
      An empty selection gives "". */
  function CleanDayPerWeek(selected: seq<string>): (r: string)
    ensures |selected| == 0 ==> r == ""
    ensures |selected| > 0 && Chosen(selected, DaysCodes) ==> Split(r, ", ") == selected && r != ""
  {
    CodesHaveNoSeparator();
    if |selected| > 0 && Chosen(selected, DaysCodes) then ChosenRoundTrip(selected, DaysCodes); Join(selected, ", ")
    else Join(selected, ", ")
  }

  /** The edit form's initial weekdays: `event.day_per_week.split(", ") if event.day_per_week else None`. */
  function InitialDays(stored: string): (r: Option<seq<string>>)
    ensures r.None? <==> stored == ""
  {
    if stored == "" then None else Some(Split(stored, ", "))
  }

  /** Storing a weekday selection and reading it back for the edit form gives "no weekdays" for the
      empty selection and the same selection otherwise. */
  lemma InitialDaysOfCleaned(selected: seq<string>)
    requires Chosen(selected, DaysCodes)
    ensures InitialDays(CleanDayPerWeek(selected)) == if |selected| == 0 then None else Some(selected)
  {
  }

  /** The amount of a group an edit applies to (`choice_event_edit`). */
  datatype EditScope = ThisOne | ThisOneAfter | AllEvent

  function EditScopeKey(scope: EditScope): (r: string)
    ensures r in EventChoices
  {
    match scope
    case ThisOne => "thisone"
    case ThisOneAfter => "thisone_after"
    case AllEvent => "allevent"
  }

  /** The required choice field accepts exactly the three keys of `EVENT_CHOICES`. */
  function ParseEditChoice(value: string): (r: Option<EditScope>)
    ensures r.Some? <==> value in EventChoices
    ensures r.Some? ==> EditScopeKey(r.value) == value
  {
    if value == "thisone" then Some(ThisOne)
    else if value == "thisone_after" then Some(ThisOneAfter)
    else if value == "allevent" then Some(AllEvent)
    else None
  }

  /** Each scope is read back from its own key. */
  lemma EditChoiceRoundTrip(scope: EditScope)
    ensures ParseEditChoice(EditScopeKey(scope)) == Some(scope)
  {
  }
}
