/**
 * `ProjectAccordion`: a row of tech-stack buttons and a list of detail
 * panels, at most one of which is open. Each panel's `active` class is a
 * flag; each button's inline background is one of three values.
 */
module Accordion {

  /** A button's inline `style.background`: never set, or one of the two gradients. */
  datatype Background = Unset | Secondary | Tertiary

  /** The panel flags after toggling panel `index`: close it if open, else open it alone. */
  function Toggled(details: seq<bool>, index: nat): (r: seq<bool>)
    requires index < |details|
    ensures |r| == |details|
  {
    seq(|details|, i requires 0 <= i < |details| => i == index && !details[index])
  }

  /** The button backgrounds after a toggle that did or did not open panel `index`. */
  function Backgrounds(count: nat, index: nat, opening: bool): (r: seq<Background>)
    ensures |r| == count
  {
    seq(count, i => if i == index && opening then Secondary else Tertiary)
  }

  /** Toggling an open panel closes every panel. */
  lemma ToggleOpenCloses(details: seq<bool>, index: nat, i: nat)
    requires index < |details| && details[index] && i < |details|
    ensures !Toggled(details, index)[i]
  {
  }

  /** Toggling a closed panel opens exactly that panel. */
  lemma ToggleClosedOpensOnly(details: seq<bool>, index: nat, i: nat)
    requires index < |details| && !details[index] && i < |details|
    ensures Toggled(details, index)[i] <==> i == index
  {
  }

  /** A button shows the secondary gradient exactly when its panel is the one now open. */
  lemma ButtonMatchesPanel(details: seq<bool>, buttons: nat, index: nat, i: nat)
    requires index < |details| && i < |details| && i < buttons
    ensures Backgrounds(buttons, index, !details[index])[i] == Secondary <==> Toggled(details, index)[i]
  {
  }

  /** Toggling the same closed panel twice leaves every panel closed. */
  lemma ToggleTwiceCloses(details: seq<bool>, index: nat, i: nat)
    requires index < |details| && !details[index] && i < |details|
    ensures !Toggled(Toggled(details, index), index)[i]
  {
  }

  class ProjectAccordion {
    /** Whether each `.tech-details` panel has the `active` class. */
    var details: seq<bool>
    /** The background of each `.tech-stack-btn`. */
    var buttons: seq<Background>

    /**
     * Start-up from the panels' classes in the markup: `init` opens the first
     * panel, if any, and leaves the others as they are; no button is styled.
     */
    constructor (initial: seq<bool>, buttonCount: nat)
      ensures |details| == |initial| && |buttons| == buttonCount
      ensures |initial| > 0 ==> details[0]
      ensures forall i :: 0 < i < |initial| ==> details[i] == initial[i]
      ensures forall i :: 0 <= i < buttonCount ==> buttons[i] == Unset
    {
      details := if |initial| > 0 then initial[0 := true] else initial;
      buttons := seq(buttonCount, _ => Unset);
    }

    /**
     * `toggleAccordion(index)`, called from the click handler of button
     * `index`. A button without a panel of the same index makes the source
     * throw before anything changes: `ok` is false then.
     */
    method ToggleAccordion(index: nat) returns (ok: bool)
      requires index < |buttons|
      modifies this
      ensures ok <==> index < old(|details|)
      ensures ok ==> details == Toggled(old(details), index)
      ensures ok ==> buttons == Backgrounds(|buttons|, index, !old(details)[index])
      ensures !ok ==> details == old(details) && buttons == old(buttons)
      ensures |details| == old(|details|) && |buttons| == old(|buttons|)
    {
      if index >= |details| {
        return false;
      }
      var wasActive := details[index];
      ghost var before := details;
      var i := 0;
      while i < |details|
        invariant 0 <= i <= |details| == |before|
        invariant forall j :: 0 <= j < i ==> !details[j]
        invariant buttons == old(buttons)
      {
        details := details[i := false];
        i := i + 1;
      }
      if !wasActive {
        details := details[index := true];
      }
      i := 0;
      while i < |buttons|
        invariant 0 <= i <= |buttons| == old(|buttons|)
        invariant forall j :: 0 <= j < i ==>
                    buttons[j] == if j == index && !wasActive then Secondary else Tertiary
        invariant details == Toggled(before, index)
      {
        if i == index && !wasActive {
          buttons := buttons[i := Secondary];
        } else {
          buttons := buttons[i := Tertiary];
        }
        i := i + 1;
      }
      ok := true;
    }

    /** The Escape key: close every panel; the button backgrounds stay as they are. */
    method CloseAll()
      modifies this
      ensures |details| == old(|details|)
      ensures forall i :: 0 <= i < |details| ==> !details[i]
      ensures buttons == old(buttons)
    {
      var i := 0;
      while i < |details|
        invariant 0 <= i <= |details| == old(|details|)
        invariant forall j :: 0 <= j < i ==> !details[j]
        invariant buttons == old(buttons)
      {
        details := details[i := false];
        i := i + 1;
      }
    }
  }
}
