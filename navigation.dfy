/**
 * Active-link tracking of `Navigation`: each navigation link carries the id
 * of the section it points to (its `data-section`), fixed at start-up, and a
 * flag saying whether it has the `active` class.
 */
module Nav {
  import opened Seqs

  /**
   * The flags `updateActiveLink(id)` leaves: only the first link whose
   * section is `id` is active, and none is when no link matches.
   */
  function ActiveFlags(sections: seq<string>, id: string): (r: seq<bool>)
    ensures |r| == |sections|
  {
    seq(|sections|, i requires 0 <= i < |sections| => i == IndexOf(sections, id))
  }

  /** At most one link is active after an update. */
  lemma AtMostOneActive(sections: seq<string>, id: string, i: nat, j: nat)
    requires i < |sections| && j < |sections|
    requires ActiveFlags(sections, id)[i] && ActiveFlags(sections, id)[j]
    ensures i == j
  {
  }

  /** The active link is the first one that points to section `id`. */
  lemma ActiveIsFirstMatch(sections: seq<string>, id: string, i: nat)
    requires i < |sections|
    ensures ActiveFlags(sections, id)[i] <==>
              sections[i] == id && forall j :: 0 <= j < i ==> sections[j] != id
  {
    var k := IndexOf(sections, id);
    assert k < i ==> sections[k] == id;
  }

  /** Some link is active exactly when some link points to section `id`. */
  lemma SomeActiveIffMatch(sections: seq<string>, id: string)
    ensures (exists i :: 0 <= i < |sections| && ActiveFlags(sections, id)[i]) <==> id in sections
  {
    var k := IndexOf(sections, id);
    if id in sections {
      assert ActiveFlags(sections, id)[k];
    }
  }

  class Navigation {
    /** The `data-section` of each navigation link, in document order. */
    const sections: seq<string>
    /** Whether each link has the `active` class. */
    var active: seq<bool>

    ghost predicate Valid()
      reads this
    {
      |active| == |sections|
    }

    /** The links as the page's markup leaves them: `Navigation` itself sets no flag. */
    constructor (sections: seq<string>, initial: seq<bool>)
      requires |initial| == |sections|
      ensures Valid()
      ensures this.sections == sections && active == initial
    {
      this.sections := sections;
      active := initial;
    }

    /** `updateActiveLink(sectionId)`: clear every link, then mark the matching one. */
    method UpdateActiveLink(sectionId: string)
      requires Valid()
      modifies this
      ensures Valid()
      ensures active == ActiveFlags(sections, sectionId)
    {
      var i := 0;
      while i < |active|
        invariant 0 <= i <= |active| == |sections|
        invariant forall j :: 0 <= j < i ==> !active[j]
      {
        active := active[i := false];
        i := i + 1;
      }
      var k := IndexOf(sections, sectionId);
      if k < |sections| {
        active := active[k := true];
      }
    }
  }
}
