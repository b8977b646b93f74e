/**
  How a locked field is shown in the page editor: the collapsed state of its
  Inputfield is switched to a locked (display-only) state, unless the field is
  configured to keep rendering its inputs.
 */
module Inputfields {
  import opened Wrappers
  import opened Host
  import opened Identifiers

  /** The collapsed states of a ProcessWire Inputfield. */
  datatype Collapsed =
    | No | Yes | Blank | Hidden | Populated
    | NoLocked | YesLocked | BlankLocked
    | YesAjax | BlankAjax
    | Tab | TabAjax | TabLocked

  /** The states in which an Inputfield shows its value but takes no input. */
  predicate IsLockedState(c: Collapsed) {
    c == NoLocked || c == YesLocked || c == BlankLocked || c == TabLocked
  }

  /** The module's `lockAdjustments`: the locked counterpart of a state. */
  const LockAdjustments: map<Collapsed, Collapsed> :=
    map[Yes := YesLocked, YesAjax := YesLocked, YesLocked := YesLocked,
        No := NoLocked, Blank := BlankLocked, NoLocked := NoLocked]

  /** The collapsed state `lockInputfield` leaves: an ajax-loaded field keeps
      its state (its input is blocked separately); with the `minimize` toggle
      the field is collapsed; a field that keeps rendering its inputs is left
      as it is; otherwise the state is adjusted through LockAdjustments, and
      a state missing from it becomes NoLocked. */
  function LockCollapsed(state: Collapsed, minimize: bool, renderInputs: bool): (r: Collapsed)
    ensures r == YesAjax <==> state == YesAjax
    ensures state != YesAjax && !renderInputs ==> IsLockedState(r)
    ensures renderInputs && !minimize ==> r == state
  {
    if state == YesAjax then state
    else if minimize then (if renderInputs then Yes else YesLocked)
    else if renderInputs then state
    else if state in LockAdjustments then LockAdjustments[state]
    else NoLocked
  }

  /** A field that does not keep rendering its inputs always ends up locked,
      except an ajax-loaded one, which keeps YesAjax. */
  lemma LockedUnlessRendered(state: Collapsed, minimize: bool)
    ensures state != YesAjax ==> IsLockedState(LockCollapsed(state, minimize, false))
    ensures state == YesAjax ==> LockCollapsed(state, minimize, false) == YesAjax
  {
  }

  /** A field that keeps rendering its inputs is never put in a locked state. */
  lemma RenderedNotLocked(state: Collapsed, minimize: bool)
    requires !IsLockedState(state)
    ensures !IsLockedState(LockCollapsed(state, minimize, true))
    ensures !minimize ==> LockCollapsed(state, minimize, true) == state
  {
  }

  /** Locking an already-locked field changes nothing, with one exception:
      BlankLocked is missing from LockAdjustments, so a blank field locked
      twice falls back to NoLocked. */
  lemma LockTwice(state: Collapsed, minimize: bool)
    ensures state != Blank ==>
              LockCollapsed(LockCollapsed(state, minimize, false), minimize, false) == LockCollapsed(state, minimize, false)
    ensures LockCollapsed(Blank, false, false) == BlankLocked
    ensures LockCollapsed(LockCollapsed(Blank, false, false), false, false) == NoLocked
  {
  }

  /** The configuration `lockInputfield` consults: the `minimize` toggle and
      the ids of fields whose inputs are still rendered while locked. */
  datatype LockConfig = LockConfig(minimize: bool, renderInputsFor: seq<int>)

  /** An Inputfield of the page editor form: its name, the field it edits (none
      for a page property) and its collapsed state. */
  datatype Inputfield = Inputfield(name: string, hasField: Option<Field>, collapsed: Collapsed)

  /** The id `lockInputfield` looks up: its field's, or else the id its name resolves to. */
  function InputfieldId(fields: seq<Field>, f: Inputfield): int {
    match f.hasField
    case Some(field) => field.id
    case None => FieldId(fields, NameRef(f.name))
  }

  /** Whether a locked field keeps rendering its inputs: only on a request
      that posts nothing, and only for the configured fields. */
  function RenderInputs(fields: seq<Field>, config: LockConfig, postEmpty: bool, f: Inputfield): (r: bool)
    ensures r ==> InputfieldId(fields, f) in config.renderInputsFor
    ensures !postEmpty ==> !r
    ensures postEmpty && InputfieldId(fields, f) in config.renderInputsFor ==> r
  {
    postEmpty && |config.renderInputsFor| > 0 && InputfieldId(fields, f) in config.renderInputsFor
  }

  /** `lockInputfield`: only the collapsed state changes. */
  function LockInputfield(fields: seq<Field>, config: LockConfig, postEmpty: bool, f: Inputfield): (r: Inputfield)
    ensures r.name == f.name && r.hasField == f.hasField
    ensures f.collapsed != YesAjax && !RenderInputs(fields, config, postEmpty, f) ==> IsLockedState(r.collapsed)
    ensures !postEmpty && f.collapsed != YesAjax ==> IsLockedState(r.collapsed)
    ensures f.collapsed == YesAjax ==> r.collapsed == YesAjax
    ensures RenderInputs(fields, config, postEmpty, f) && !config.minimize ==> r == f
  {
    var renderInputs := RenderInputs(fields, config, postEmpty, f);
    LockedUnlessRendered(f.collapsed, config.minimize);
    f.(collapsed := LockCollapsed(f.collapsed, config.minimize, renderInputs))
  }

  /** What happens when `lockInputfield` meets an ajax-loaded field. */
  datatype AjaxOutcome = AjaxLocked(state: Collapsed) | ArgumentCountError

  /** The ajax branch as written: `lockAjaxInputfield` is declared with two
      parameters (the Inputfield and `$renderInputs`) but called with the
      Inputfield alone, which PHP 7.1 and later reject with an
      ArgumentCountError before the function body runs. */
  function LockCollapsedAsWritten(state: Collapsed, minimize: bool, renderInputs: bool): (r: AjaxOutcome)
    ensures state != YesAjax ==> r == AjaxLocked(LockCollapsed(state, minimize, renderInputs))
  {
    if state == YesAjax then ArgumentCountError
    else AjaxLocked(LockCollapsed(state, minimize, renderInputs))
  }

  /** Every ajax-loaded field makes the call fail. */
  lemma AjaxCallFails(minimize: bool, renderInputs: bool)
    ensures LockCollapsedAsWritten(YesAjax, minimize, renderInputs) == ArgumentCountError
  {
  }

  /** With `$renderInputs` passed along, as the callee's signature asks,
      locking succeeds for every state and the ajax field keeps its state. */
  lemma AjaxCallCorrected(state: Collapsed, minimize: bool, renderInputs: bool)
    ensures LockCollapsed(state, minimize, renderInputs) == YesAjax <==> state == YesAjax
    ensures state != YesAjax && !renderInputs ==> IsLockedState(LockCollapsed(state, minimize, renderInputs))
  {
  }
}
