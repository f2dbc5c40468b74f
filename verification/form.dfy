/** The create/edit habit dialog: the field state it starts from, the submit handler
    (trim guard, payload, reset after creating), the open/close handler (reset when a
    create dialog closes), and the texts and button state that depend on the mode. The
    dialog is in edit mode exactly when it is given a habit. */
module HabitForm {
  import opened Options
  import opened Records

  // ---------------------------------------------------------------------------------
  // Trimming
  // ---------------------------------------------------------------------------------

  /** The whitespace the name is trimmed of: space, tab, line feed, vertical tab, form
      feed, carriage return and no-break space. */
  predicate IsSpace(c: char) {
    c == ' ' || c == '\t' || c == '\n' || c == '\U{000B}' || c == '\U{000C}' || c == '\r' || c == '\U{00A0}'
  }

  /** Where the first non-whitespace character is (the length when there is none). */
  function Lead(s: string): (i: nat)
    ensures i <= |s|
    ensures forall k :: 0 <= k < i ==> IsSpace(s[k])
    ensures i < |s| ==> !IsSpace(s[i])
  {
    if |s| == 0 || !IsSpace(s[0]) then 0 else 1 + Lead(s[1..])
  }

  /** Where the trailing whitespace begins, not searching below `lo`. */
  function End(s: string, lo: nat): (j: nat)
    requires lo <= |s|
    ensures lo <= j <= |s|
    ensures forall k :: j <= k < |s| ==> IsSpace(s[k])
    ensures j > lo ==> !IsSpace(s[j - 1])
    decreases |s|
  {
    if |s| == lo || !IsSpace(s[|s| - 1]) then |s| else End(s[..|s| - 1], lo)
  }

  predicate AllSpace(s: string) {
    forall k :: 0 <= k < |s| ==> IsSpace(s[k])
  }

  /** `String.prototype.trim`: the name without its leading and trailing whitespace. What
      it drops at either end is whitespace, and what it keeps neither starts nor ends
      with whitespace. */
  function Trim(s: string): (t: string)
    ensures exists i, j :: 0 <= i <= j <= |s| && t == s[i..j] && AllSpace(s[..i]) && AllSpace(s[j..])
    ensures |t| > 0 ==> !IsSpace(t[0]) && !IsSpace(t[|t| - 1])
  {
    var i := Lead(s);
    var j := End(s, i);
    assert AllSpace(s[..i]) && AllSpace(s[j..]);
    s[i..j]
  }

  /** A name trims to nothing exactly when it is all whitespace. */
  lemma TrimEmptyIff(s: string)
    ensures Trim(s) == "" <==> AllSpace(s)
  {
    var i := Lead(s);
    if Trim(s) == "" {
      assert End(s, i) == i;
    }
    if AllSpace(s) {
      assert i == |s|;
    }
  }

  /** Trimming twice trims nothing more. */
  lemma TrimIdempotent(s: string)
    ensures Trim(Trim(s)) == Trim(s)
  {
    var t := Trim(s);
    assert Lead(t) == 0;
    assert End(t, 0) == |t|;
  }

  // ---------------------------------------------------------------------------------
  // State and handlers
  // ---------------------------------------------------------------------------------

  /** The dialog's fields. */
  datatype FormState = FormState(name: string, goal: GoalType)

  /** What the dialog hands to its owner on an accepted submit. */
  datatype Payload = Payload(name: string, goal: GoalType)

  const Cleared: FormState := FormState("", Daily)

  /** The fields a dialog starts with: the edited habit's, or an empty name and a daily
      goal. The dialog initialises the name with `habit?.name || ""`, which gives the
      habit's name in every case, the empty name included. */
  function Init(habit: Option<Habit>): (state: FormState)
    ensures habit.None? ==> state == Cleared
    ensures habit.Some? ==> state.name == habit.value.name && state.goal == habit.value.goal
  {
    match habit
    case None => Cleared
    case Some(h) => FormState(h.name, h.goal)
  }

  /** The submit handler: a name that trims to nothing is ignored; otherwise the trimmed
      name and the goal are sent, and a create dialog clears its fields while an edit
      dialog keeps them. Returns the new fields and what was sent. */
  function Submit(state: FormState, habit: Option<Habit>): (r: (FormState, Option<Payload>))
    ensures Trim(state.name) == "" ==> r == (state, None)
    ensures Trim(state.name) != "" ==> r.1 == Some(Payload(Trim(state.name), state.goal))
    ensures Trim(state.name) != "" && habit.None? ==> r.0 == Cleared
    ensures habit.Some? ==> r.0 == state
  {
    if Trim(state.name) == "" then (state, None)
    else
      var sent := Payload(Trim(state.name), state.goal);
      if habit.None? then (Cleared, Some(sent)) else (state, Some(sent))
  }

  /** The open/close handler: the new open state is always passed on, and the fields are
      cleared only when a create dialog closes. Returns the new fields and the value
      passed on. */
  function OpenChange(state: FormState, habit: Option<Habit>, newOpen: bool): (r: (FormState, bool))
    ensures r.1 == newOpen
    ensures !newOpen && habit.None? ==> r.0 == Cleared
    ensures newOpen || habit.Some? ==> r.0 == state
  {
    (if !newOpen && habit.None? then Cleared else state, newOpen)
  }

  /** A sent name is never blank and never has whitespace at either end. */
  lemma SentNameIsClean(state: FormState, habit: Option<Habit>)
    ensures Submit(state, habit).1.Some? ==>
      var name := Submit(state, habit).1.value.name;
      && name != "" && !IsSpace(name[0]) && !IsSpace(name[|name| - 1]) && Trim(name) == name
  {
    TrimIdempotent(state.name);
  }

  /** After creating a habit the cleared dialog ignores a second submit until a name is
      typed again. */
  lemma CreateThenResubmit(state: FormState)
    ensures Submit(Submit(state, None).0, None).1 == None
  {
    assert Lead("") == 0;
  }

  /** A dialog that stays mounted keeps its fields when it is reused to edit a habit, so
      after creating a habit (or closing a create dialog) an edit starts from the cleared
      fields: submit is ignored and the button stays disabled until a name is typed. */
  lemma ReusedDialogEditIgnored(h: Habit)
    ensures Submit(Cleared, Some(h)) == (Cleared, None)
    ensures SubmitDisabled(false, Cleared)
  {
  }

  /** Submit is ignored exactly when the fields hold only whitespace. */
  lemma SubmitIgnoredIff(state: FormState, habit: Option<Habit>)
    ensures Submit(state, habit).1 == None <==> AllSpace(state.name)
  {
    TrimEmptyIff(state.name);
  }

  // ---------------------------------------------------------------------------------
  // Texts and the submit button
  // ---------------------------------------------------------------------------------

  /** The submit button is disabled while saving and while the name is blank. */
  function SubmitDisabled(loading: bool, state: FormState): bool {
    loading || Trim(state.name) == ""
  }

  /** An enabled submit button is never ignored by the handler, and a disabled one that
      is not saving guards exactly the names the handler ignores. */
  lemma SubmitButtonMatchesGuard(loading: bool, state: FormState, habit: Option<Habit>)
    ensures !SubmitDisabled(loading, state) ==> Submit(state, habit).1.Some?
    ensures !loading ==> (SubmitDisabled(loading, state) <==> Submit(state, habit).1.None?)
  {
  }

  function Title(habit: Option<Habit>): (text: string)
    ensures text == "Edit Habit" <==> habit.Some?
    ensures text == "Create New Habit" <==> habit.None?
  {
    if habit.Some? then "Edit Habit" else "Create New Habit"
  }

  function SubmitLabel(loading: bool, habit: Option<Habit>): (text: string)
    ensures text == "Saving..." <==> loading
    ensures text == "Update Habit" <==> !loading && habit.Some?
    ensures text == "Create Habit" <==> !loading && habit.None?
  {
    if loading then "Saving..." else if habit.Some? then "Update Habit" else "Create Habit"
  }

  /** The title and the idle submit label agree on the mode. */
  lemma TextsAgreeOnMode(habit: Option<Habit>)
    ensures Title(habit) == "Edit Habit" <==> SubmitLabel(false, habit) == "Update Habit"
  {
  }
}
