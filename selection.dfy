/**
 * The per-record selection flags of the contact list, as values: how many
 * are set, and what flipping all of them gives.
 */
module Selection {

  /** The number of set flags; counted from the end, the way a loop over a growing prefix sees it. */
  function CountTrue(s: seq<bool>): (n: nat)
    ensures n <= |s|
  {
    if s == [] then 0 else CountTrue(s[..|s| - 1]) + (if s[|s| - 1] then 1 else 0)
  }

  /** Every flag flipped. */
  function Inverted(s: seq<bool>): (r: seq<bool>)
  {
    seq(|s|, i requires 0 <= i < |s| => !s[i])
  }

  /** All flags are set exactly when the count is the length. */
  lemma {:induction false} CountAllSet(s: seq<bool>)
    ensures CountTrue(s) == |s| <==> forall i :: 0 <= i < |s| ==> s[i]
  {
    if s != [] {
      var p := s[..|s| - 1];
      CountAllSet(p);
      assert forall i :: 0 <= i < |p| ==> p[i] == s[i];
    }
  }

  /** No flag is set exactly when the count is zero. */
  lemma {:induction false} CountNoneSet(s: seq<bool>)
    ensures CountTrue(s) == 0 <==> forall i :: 0 <= i < |s| ==> !s[i]
  {
    if s != [] {
      var p := s[..|s| - 1];
      CountNoneSet(p);
      assert forall i :: 0 <= i < |p| ==> p[i] == s[i];
    }
  }

  /** Flipping every flag turns a count of k into |s| - k. */
  lemma {:induction false} CountInverted(s: seq<bool>)
    ensures CountTrue(Inverted(s)) == |s| - CountTrue(s)
  {
    if s != [] {
      var p := s[..|s| - 1];
      CountInverted(p);
      assert Inverted(s)[..|s| - 1] == Inverted(p);
    }
  }

  /** Flipping every flag twice gives the flags back. */
  lemma InvertedInvolutive(s: seq<bool>)
    ensures Inverted(Inverted(s)) == s
  {
  }

  /** Three records, all selected: the count is 3; after inverting it is 0. */
  lemma SelectionScenario()
    ensures CountTrue([true, true, true]) == 3
    ensures CountTrue(Inverted([true, true, true])) == 0
  {
  }
}
