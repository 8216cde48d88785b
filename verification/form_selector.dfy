/**
  The saved-form picker of src/components/review/form-selector.tsx (the
  summary page carries an identical copy of its name rule and menu): the
  name half of an entry's label, the menu listing the saved forms newest
  first, and the normalisation of a cleared selection.
*/
module FormSelector {
  import opened Wrappers
  import opened Text
  import opened FormTypes
  import opened Storage

  const UnnamedLabel: string := "Unnamed"

  /** The name half of `getFormDisplayName`: the text before the first ','
      of the form's name, trimmed, or "Unnamed" when that is empty. */
  function DisplayNamePart(name: string): (r: string)
    ensures r != "" && IsTrimmed(r) && ',' !in r
    ensures AllWhitespace(FirstSegment(name, ',')) ==> r == UnnamedLabel
    ensures !AllWhitespace(FirstSegment(name, ',')) ==> r == Trim(FirstSegment(name, ','))
  {
    var first := Trim(FirstSegment(name, ','));
    assert ',' !in first by {
      TrimIsSlice(FirstSegment(name, ','));
    }
    if first == "" then UnnamedLabel else first
  }

  /** Whatever `trim` keeps is taken from the original. */
  lemma TrimIsSlice(s: string)
    ensures forall c :: c in Trim(s) ==> c in s
  {
    var t := s[LeadingWhitespace(s)..];
    forall c | c in Trim(s) ensures c in s {
      var i :| 0 <= i < |Trim(s)| && Trim(s)[i] == c;
      assert Trim(s)[i] == t[i] == s[LeadingWhitespace(s) + i];
    }
  }

  /** A name of the form "Surname, Given" is labelled by its part before the
      comma: whatever follows the first ',' never shows. */
  lemma DisplayNameIgnoresAfterComma(a: string, b: string)
    ensures DisplayNamePart(a + "," + b) == DisplayNamePart(a)
  {
    assert a + "," + b == a + [','] + b;
    SplitConcat(a, b, ',');
  }

  /** A plain name with no comma and no surrounding blanks is its own label. */
  lemma DisplayNameOfPlainName(name: string)
    requires name != "" && ',' !in name && IsTrimmed(name)
    ensures DisplayNamePart(name) == name
  {
    SplitAbsent(name, ',');
    TrimOfPadded([], name, []);
    assert [] + name + [] == name;
  }

  /** `getFormDisplayName`: the name half, " - ", and the submission date as
      the locale renders it (a parameter: locale and clock are left out). */
  function DisplayName(form: SavedForm, localDate: string): (r: string)
    ensures StartsWith(r, DisplayNamePart(form.data.name) + " - ")
    ensures EndsWith(r, localDate)
  {
    var prefix := DisplayNamePart(form.data.name) + " - ";
    var r := prefix + localDate;
    assert r[..|prefix|] == prefix;
    assert r[|r| - |localDate|..] == localDate;
    r
  }

  /** One entry of the dropdown: a form's id and label, or the disabled
      "no-data" placeholder. */
  datatype MenuItem = Item(value: string, caption: string) | NoDataItem

  /** `s.slice().reverse()`: a reversed copy. */
  function Reverse<T>(s: seq<T>): (r: seq<T>)
    ensures |r| == |s|
    ensures forall i :: 0 <= i < |s| ==> r[i] == s[|s| - 1 - i]
  {
    if |s| == 0 then [] else [s[|s| - 1]] + Reverse(s[..|s| - 1])
  }

  lemma ReverseInvolution<T>(s: seq<T>)
    ensures Reverse(Reverse(s)) == s
  {
  }

  function ItemFor(form: SavedForm, localDate: string -> string): MenuItem {
    Item(form.id, DisplayName(form, localDate(form.submittedAt)))
  }

  /** `SelectContent`: one item per saved form, newest (last saved) first,
      or the single placeholder when there are none. */
  function Menu(forms: seq<SavedForm>, localDate: string -> string): (r: seq<MenuItem>)
    ensures |forms| == 0 ==> r == [NoDataItem]
    ensures |forms| > 0 ==> |r| == |forms|
    ensures |forms| > 0 ==> forall i :: 0 <= i < |r| ==> r[i] == ItemFor(forms[|forms| - 1 - i], localDate)
  {
    if |forms| == 0 then [NoDataItem]
    else
      var rev := Reverse(forms);
      seq(|rev|, i requires 0 <= i < |rev| => ItemFor(rev[i], localDate))
  }

  /** The last saved form's id, or "" when none is saved. */
  function LatestId(forms: seq<SavedForm>): (r: string)
    ensures |forms| > 0 ==> r == forms[|forms| - 1].id
    ensures |forms| == 0 ==> r == ""
  {
    if |forms| > 0 then forms[|forms| - 1].id else ""
  }

  /** An id the menu lets one choose. */
  predicate Offered(forms: seq<SavedForm>, id: string) {
    exists i :: 0 <= i < |forms| && forms[i].id == id
  }

  /** The menu holds an item whose value is `id`. */
  predicate MenuOffers(m: seq<MenuItem>, id: string) {
    exists j :: 0 <= j < |m| && m[j].Item? && m[j].value == id
  }

  /** The menu offers exactly the saved forms' ids, and its first item is the
      latest form. */
  lemma MenuOffersSavedIds(forms: seq<SavedForm>, localDate: string -> string, id: string)
    ensures MenuOffers(Menu(forms, localDate), id) <==> Offered(forms, id)
    ensures |forms| > 0 ==> Menu(forms, localDate)[0].value == LatestId(forms)
  {
    var m := Menu(forms, localDate);
    if MenuOffers(m, id) {
      var j :| 0 <= j < |m| && m[j].Item? && m[j].value == id;
      MenuEntry(forms, localDate, j);
    }
    if Offered(forms, id) {
      var i :| 0 <= i < |forms| && forms[i].id == id;
      MenuEntry(forms, localDate, |forms| - 1 - i);
    }
    if |forms| > 0 {
      MenuEntry(forms, localDate, 0);
    }
  }

  /** Item `j` of a non-empty menu is the `j`-th newest form. */
  lemma MenuEntry(forms: seq<SavedForm>, localDate: string -> string, j: int)
    requires 0 <= j < |forms|
    ensures |Menu(forms, localDate)| == |forms|
    ensures Menu(forms, localDate)[j].Item? && Menu(forms, localDate)[j].value == forms[|forms| - 1 - j].id
  {
  }

  /** `onValueChange(value || "")`: a cleared selection becomes "". */
  function NormaliseSelection(value: Option<string>): (r: string)
    ensures value.Some? ==> r == value.value
    ensures value.None? ==> r == ""
  {
    value.GetOr("")
  }

  const SelectPrompt: string := "Select a saved form"

  /** `savedForms.find(f => f.id === id)`: the first form with that id. */
  function Find(forms: seq<SavedForm>, id: string): (r: Option<SavedForm>)
    ensures r.Some? <==> Offered(forms, id)
    ensures r.Some? ==> exists i :: 0 <= i < |forms| && forms[i] == r.value && r.value.id == id
    ensures r.Some? ==> exists i :: 0 <= i < |forms| && forms[i] == r.value && forall j :: 0 <= j < i ==> forms[j].id != id
  {
    if |forms| == 0 then None
    else if forms[0].id == id then
      assert forms[0].id == id;
      Some(forms[0])
    else
      var r := Find(forms[1..], id);
      assert Offered(forms, id) ==> Offered(forms[1..], id) by {
        if Offered(forms, id) {
          var i :| 0 <= i < |forms| && forms[i].id == id;
          assert forms[1..][i - 1].id == id;
        }
      }
      assert r.Some? ==> Offered(forms, id) by {
        if r.Some? {
          var i :| 0 <= i < |forms[1..]| && forms[1..][i].id == id;
          assert forms[i + 1].id == id;
        }
      }
      assert r.Some? ==> exists i :: 0 <= i < |forms| && forms[i] == r.value by {
        if r.Some? {
          var i :| 0 <= i < |forms[1..]| && forms[1..][i] == r.value;
          assert forms[i + 1] == r.value;
        }
      }
      assert r.Some? ==> exists i :: 0 <= i < |forms| && forms[i] == r.value && forall j :: 0 <= j < i ==> forms[j].id != id by {
        if r.Some? {
          var i :| 0 <= i < |forms[1..]| && forms[1..][i] == r.value && forall j :: 0 <= j < i ==> forms[1..][j].id != id;
          assert forms[i + 1] == r.value;
          forall j | 0 <= j < i + 1 ensures forms[j].id != id {
            if j > 0 { assert forms[j] == forms[1..][j - 1]; }
          }
        }
      }
      r
  }

  /** The trigger's text: the prompt when nothing is selected, otherwise the
      label of the selected form. `None` stands for the crash of
      `getFormDisplayName(undefined)` when the selected id is not in the
      list: the `!` after `find` silences the type checker but checks
      nothing. */
  function TriggerCaption(forms: seq<SavedForm>, id: string, localDate: string -> string): (r: Option<string>)
    ensures id == "" ==> r == Some(SelectPrompt)
    ensures r.None? <==> id != "" && !Offered(forms, id)
    ensures id != "" && r.Some? ==> StartsWith(r.value, DisplayNamePart(Find(forms, id).value.data.name) + " - ")
  {
    if id == "" then Some(SelectPrompt)
    else
      match Find(forms, id)
      case None => None
      case Some(form) => Some(DisplayName(form, localDate(form.submittedAt)))
  }

  /** What the pages keep true of their selection: nothing, or an id the
      list offers. */
  predicate SelectionValid(forms: seq<SavedForm>, id: string) {
    id == "" || Offered(forms, id)
  }

  /** Under that invariant the trigger never reaches a missing form. */
  lemma ValidSelectionHasCaption(forms: seq<SavedForm>, id: string, localDate: string -> string)
    requires SelectionValid(forms, id)
    ensures TriggerCaption(forms, id, localDate).Some?
  {
  }

  /** Selecting the latest form keeps the invariant. */
  lemma LatestIdValid(forms: seq<SavedForm>)
    ensures SelectionValid(forms, LatestId(forms))
  {
    if |forms| > 0 {
      assert forms[|forms| - 1].id == LatestId(forms);
    }
  }

  /** So does whatever the menu hands back: an item's value, or a cleared
      selection normalised to "". */
  lemma MenuChoiceValid(forms: seq<SavedForm>, localDate: string -> string, value: Option<string>)
    requires value.Some? ==> MenuOffers(Menu(forms, localDate), value.value)
    ensures SelectionValid(forms, NormaliseSelection(value))
  {
    if value.Some? {
      MenuOffersSavedIds(forms, localDate, value.value);
    }
  }
}
