/** The activity picker: the draft of a new custom activity (modal shown, name, color), the Add
    and Cancel handlers, the Add button's enablement, long-press deletion and the active tab. */
module Selector {
  import opened Options
  import opened Strings
  import opened Activities

  /** Whitespace as the name check treats it: space, tab, line feed, vertical tab, form feed,
      carriage return, no-break space and the byte-order mark. */
  predicate IsSpace(c: char) {
    c == ' ' || c == '\t' || c == '\n' || c == '\U{000B}' || c == '\U{000C}' || c == '\r'
    || c == '\U{00A0}' || c == '\U{FEFF}'
  }

  /** The first index at or after `i` that holds no whitespace, or `|s|` when there is none. */
  function SkipSpaces(s: string, i: nat): (n: nat)
    requires i <= |s|
    ensures i <= n <= |s|
    ensures forall k :: i <= k < n ==> IsSpace(s[k])
    ensures n == |s| || !IsSpace(s[n])
    decreases |s| - i
  {
    if i < |s| && IsSpace(s[i]) then SkipSpaces(s, i + 1) else i
  }

  /** The least index `n <= j` such that `s[n..j]` is all whitespace. */
  function SkipSpacesBack(s: string, j: nat): (n: nat)
    requires j <= |s|
    ensures n <= j
    ensures forall k :: n <= k < j ==> IsSpace(s[k])
    ensures n == 0 || !IsSpace(s[n - 1])
  {
    if j > 0 && IsSpace(s[j - 1]) then SkipSpacesBack(s, j - 1) else j
  }

  /** Drop leading whitespace: what remains is a suffix of `s` that does not start with a space. */
  function TrimStart(s: string): (r: string)
    ensures |r| <= |s| && r == s[|s| - |r|..]
    ensures forall k :: 0 <= k < |s| - |r| ==> IsSpace(s[k])
    ensures r == [] || !IsSpace(r[0])
  {
    s[SkipSpaces(s, 0)..]
  }

  /** Drop trailing whitespace: what remains is a prefix of `s` that does not end with a space. */
  function TrimEnd(s: string): (r: string)
    ensures |r| <= |s| && r == s[..|r|]
    ensures forall k :: |r| <= k < |s| ==> IsSpace(s[k])
    ensures r == [] || !IsSpace(r[|r| - 1])
  {
    s[..SkipSpacesBack(s, |s|)]
  }

  /** `String.prototype.trim` over the whitespace above: a slice of the name that neither starts
      nor ends with whitespace, empty exactly when the name is all whitespace. `TrimCutsEnds` shows
      it is the name with exactly its leading and trailing whitespace cut off, and
      `TrimmedIsTrimmed` that trimming is idempotent. */
  function Trim(s: string): (r: string)
    ensures |r| <= |s|
    ensures r == [] || (!IsSpace(r[0]) && !IsSpace(r[|r| - 1]))
    ensures r == [] <==> forall k :: 0 <= k < |s| ==> IsSpace(s[k])
  {
    TrimEndKeepsStart(TrimStart(s));
    TrimEnd(TrimStart(s))
  }

  /** The trimmed name is the slice `s[a..b]` of the name, with only whitespace before `a` and
      after `b`. */
  lemma TrimCutsEnds(s: string)
    ensures exists a, b ::
              && 0 <= a <= b <= |s| && Trim(s) == s[a..b]
              && (forall k :: 0 <= k < a ==> IsSpace(s[k]))
              && (forall k :: b <= k < |s| ==> IsSpace(s[k]))
  {
    var u := TrimStart(s);
    var a := SkipSpaces(s, 0);
    var b := a + |TrimEnd(u)|;
    assert Trim(s) == s[a..b];
    assert forall k :: b <= k < |s| ==> s[k] == u[k - a];
  }

  /** Trimming again changes nothing. */
  lemma TrimmedIsTrimmed(s: string)
    ensures Trim(Trim(s)) == Trim(s)
  {
    TrimOfTrimmed(Trim(s));
  }

  /** A text with no whitespace at either end is its own trim. */
  lemma TrimOfTrimmed(t: string)
    requires t == [] || (!IsSpace(t[0]) && !IsSpace(t[|t| - 1]))
    ensures Trim(t) == t
  {
    TrimStartOfTrimmed(t);
    TrimEndOfTrimmed(t);
  }

  /** Cutting trailing whitespace from a text that does not start with a space leaves a text that
      does not start with one either. */
  lemma TrimEndKeepsStart(u: string)
    requires u == [] || !IsSpace(u[0])
    ensures var t := TrimEnd(u); t == [] || !IsSpace(t[0])
  {
    var t := TrimEnd(u);
    if t != [] {
      assert t[0] == u[0];
    }
  }

  lemma TrimStartOfTrimmed(t: string)
    requires t == [] || !IsSpace(t[0])
    ensures TrimStart(t) == t
  {
    assert SkipSpaces(t, 0) == 0;
  }

  lemma TrimEndOfTrimmed(t: string)
    requires t == [] || !IsSpace(t[|t| - 1])
    ensures TrimEnd(t) == t
  {
    assert SkipSpacesBack(t, |t|) == |t|;
  }

  const InitialColor: string := "#673AB7"

  /** `Date.now().toString()`: the id of a new activity is the decimal text of the clock's
      milliseconds, which has no `-` and so cannot blur the key prefixes. */
  function ClockId(nowMillis: nat): (id: string)
    ensures id != [] && HyphenFree(id)
    ensures AllDigits(id) && ParseDigits(id) == nowMillis
  {
    DigitsHyphenFree(nowMillis);
    ParseDigitsRoundTrip(nowMillis);
    Digits(nowMillis)
  }

  class ActivitySelector {
    var modalVisible: bool
    var newActivityName: string
    var newActivityColor: string

    constructor ()
      ensures !modalVisible && newActivityName == "" && newActivityColor == InitialColor
    {
      modalVisible := false;
      newActivityName := "";
      newActivityColor := InitialColor;
    }

    /** The "+ Add" tab opens the modal. */
    method OpenModal()
      modifies this
      ensures modalVisible
      ensures newActivityName == old(newActivityName) && newActivityColor == old(newActivityColor)
    {
      modalVisible := true;
    }

    /** `onChangeText` of the name field. */
    method ChangeName(text: string)
      modifies this
      ensures newActivityName == text
      ensures modalVisible == old(modalVisible) && newActivityColor == old(newActivityColor)
    {
      newActivityName := text;
    }

    /** A tap on a color swatch. */
    method PickColor(color: string)
      modifies this
      ensures newActivityColor == color
      ensures modalVisible == old(modalVisible) && newActivityName == old(newActivityName)
    {
      newActivityColor := color;
    }

    /** The back button (`onRequestClose`) hides the modal and keeps the draft. */
    method RequestClose()
      modifies this
      ensures !modalVisible
      ensures newActivityName == old(newActivityName) && newActivityColor == old(newActivityColor)
    {
      modalVisible := false;
    }

    /** The Add button is enabled exactly when the trimmed name is not empty, which is exactly when
        the name holds a character other than whitespace. Pressing Add emits an activity in the
        same case (`HandleAddActivity`). */
    function AddEnabled(): (r: bool)
      reads this
      ensures r <==> exists k :: 0 <= k < |newActivityName| && !IsSpace(newActivityName[k])
    {
      Trim(newActivityName) != ""
    }

    /** `handleAddActivity`, with the clock's milliseconds passed in. A blank name emits nothing and
        changes nothing; otherwise one custom activity with the trimmed name, the draft color and
        the clock id is emitted, the name is cleared and the modal closes; the color stays. */
    method HandleAddActivity(nowMillis: nat) returns (emitted: Option<Activity>)
      modifies this
      ensures old(Trim(newActivityName)) == "" ==>
        emitted == None
        && modalVisible == old(modalVisible) && newActivityName == old(newActivityName)
        && newActivityColor == old(newActivityColor)
      ensures old(Trim(newActivityName)) != "" ==>
        emitted == Some(Activity(ClockId(nowMillis), old(Trim(newActivityName)), None, old(newActivityColor), true))
        && !modalVisible && newActivityName == "" && newActivityColor == old(newActivityColor)
      ensures emitted.Some? ==>
        emitted.value.isCustom && emitted.value.name != "" && Trim(emitted.value.name) == emitted.value.name
        && HyphenFree(emitted.value.id)
    {
      emitted := None;
      var name := Trim(newActivityName);
      if name != "" {
        var id := ClockId(nowMillis);
        TrimmedIsTrimmed(newActivityName);
        assert Trim(name) == name && HyphenFree(id);
        emitted := Some(Activity(id, name, None, newActivityColor, true));
        newActivityName := "";
        modalVisible := false;
      }
    }

    /** Cancel closes the modal and clears the name; the color stays. */
    method Cancel()
      modifies this
      ensures !modalVisible && newActivityName == ""
      ensures newActivityColor == old(newActivityColor)
    {
      modalVisible := false;
      newActivityName := "";
    }
  }

  /** A long press asks to delete the activity only when it is custom. */
  function LongPressDelete(activity: Activity): (request: Option<string>)
    ensures request.Some? <==> activity.isCustom
    ensures request.Some? ==> request.value == activity.id
  {
    if activity.isCustom then Some(activity.id) else None
  }

  /** With unique ids, a long press on a listed activity always names a custom activity that the
      session's delete finds, so the request goes on to the confirmation instead of being refused. */
  lemma LongPressReachesConfirmation(activities: seq<Activity>, activity: Activity)
    requires UniqueIds(activities) && activity in activities
    requires LongPressDelete(activity).Some?
    ensures Find(activities, LongPressDelete(activity).value) == Some(activity)
    ensures activity.isCustom
  {
    FindListed(activities, activity);
  }

  /** A tab is drawn active when its id is the selected activity's id: the selected activity's own
      tab always is, and with nothing selected none is. */
  function IsActiveTab(selected: Option<Activity>, activity: Activity): (r: bool)
    ensures selected == Some(activity) ==> r
    ensures selected.None? ==> !r
  {
    selected.Some? && selected.value.id == activity.id
  }

  /** Among tabs with unique ids, at most one is drawn active. */
  lemma AtMostOneActiveTab(activities: seq<Activity>, selected: Option<Activity>, i: nat, j: nat)
    requires UniqueIds(activities) && i < |activities| && j < |activities|
    requires IsActiveTab(selected, activities[i]) && IsActiveTab(selected, activities[j])
    ensures i == j
  {
  }
}
