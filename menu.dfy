/** The selection logic of the start menu (main.cpp:139-227): two items,
    0 for "Start Game" and 1 for "Exit", moved with Up and Down and
    confirmed with Enter. Text layout and drawing are not modelled. */
module MenuModel {

  /** The keys Menu::update distinguishes; every other key falls in
      Other. */
  datatype Key = Up | Down | Enter | Other

  /** The selected index after one key press from index i
      (main.cpp:192-205): Up steps back unless already at 0, Down steps
      forward unless already at 1, other keys leave it. */
  function NextIndex(i: int, key: Key): (r: int)
    ensures key != Up && key != Down ==> r == i
    ensures key == Up ==> (i > 0 ==> r == i - 1) && (i <= 0 ==> r == i)
    ensures key == Down ==> (i < 1 ==> r == i + 1) && (i >= 1 ==> r == i)
    ensures 0 <= i <= 1 ==> 0 <= r <= 1
    ensures 0 <= i <= 1 && key == Up ==> r == 0
    ensures 0 <= i <= 1 && key == Down ==> r == 1
  {
    match key
    case Up => if i > 0 then i - 1 else i
    case Down => if i < 1 then i + 1 else i
    case _ => i
  }

  /** The index after a run of key presses, one Menu::update each, as the
      event loop calls it per key press (main.cpp:315). A specification
      helper for the lemmas below; Menu.Update is the operation itself. */
  function IndexAfter(i: int, keys: seq<Key>): int
    decreases |keys|
  {
    if keys == [] then i else IndexAfter(NextIndex(i, keys[0]), keys[1..])
  }

  /** However many keys are pressed, the selection stays on one of the
      two items. */
  lemma {:induction false} IndexAfterInRange(i: int, keys: seq<Key>)
    requires 0 <= i <= 1
    ensures 0 <= IndexAfter(i, keys) <= 1
    decreases |keys|
  {
    if keys != [] {
      IndexAfterInRange(NextIndex(i, keys[0]), keys[1..]);
    }
  }

  /** A run that ends in Up selects item 0, one that ends in Down selects
      item 1, and a run with no arrow key leaves the selection where it
      started. LastArrowWins covers arrows followed by other keys. */
  lemma {:induction false} LastArrowDecides(i: int, keys: seq<Key>)
    requires 0 <= i <= 1
    ensures (forall k :: 0 <= k < |keys| ==> keys[k] != Up && keys[k] != Down) ==> IndexAfter(i, keys) == i
    ensures |keys| >= 1 && keys[|keys| - 1] == Up ==> IndexAfter(i, keys) == 0
    ensures |keys| >= 1 && keys[|keys| - 1] == Down ==> IndexAfter(i, keys) == 1
    decreases |keys|
  {
    if keys != [] {
      var j := NextIndex(i, keys[0]);
      LastArrowDecides(j, keys[1..]);
      if |keys| == 1 {
        assert IndexAfter(j, keys[1..]) == j;
      } else {
        assert keys[1..][|keys[1..]| - 1] == keys[|keys| - 1];
      }
      if forall k :: 0 <= k < |keys| ==> keys[k] != Up && keys[k] != Down {
        assert keys[0] != Up && keys[0] != Down;
        assert forall k :: 0 <= k < |keys[1..]| ==> keys[1..][k] == keys[k + 1];
      }
    }
  }

  /** The last Up or Down of a run decides the selection, whatever other
      keys follow it. */
  lemma {:induction false} LastArrowWins(i: int, keys: seq<Key>, k: int)
    requires 0 <= i <= 1
    requires 0 <= k < |keys| && (keys[k] == Up || keys[k] == Down)
    requires forall j :: k < j < |keys| ==> keys[j] != Up && keys[j] != Down
    ensures IndexAfter(i, keys) == if keys[k] == Up then 0 else 1
    decreases |keys|
  {
    var next := NextIndex(i, keys[0]);
    assert forall m :: 0 <= m < |keys[1..]| ==> keys[1..][m] == keys[m + 1];
    if k == 0 {
      LastArrowDecides(next, keys[1..]);
    } else {
      LastArrowWins(next, keys[1..], k - 1);
    }
  }

  /** The global flags Menu::update writes (main.cpp:9-10). */
  class Flags {
    var inGame: bool
    var inGameOverScreen: bool

    constructor ()
      ensures !inGame && !inGameOverScreen
    {
      inGame := false;
      inGameOverScreen := false;
    }
  }

  class Menu {
    var selectedItemIndex: int

    predicate Valid()
      reads this
    {
      0 <= selectedItemIndex <= 1
    }

    /** main.cpp:158: the menu opens on "Start Game". */
    constructor ()
      ensures selectedItemIndex == 0 && Valid()
    {
      selectedItemIndex := 0;
    }

    /** main.cpp:191-219. Enter on item 0 requests a game; Enter on item 1
        asks for the window to close, which closeWindow reports. */
    method Update(key: Key, flags: Flags) returns (closeWindow: bool)
      modifies this, flags
      ensures selectedItemIndex == NextIndex(old(selectedItemIndex), key)
      ensures old(Valid()) ==> Valid()
      ensures closeWindow <==> key == Enter && old(selectedItemIndex) == 1
      ensures key == Enter && old(selectedItemIndex) == 0 ==> flags.inGame && !flags.inGameOverScreen
      ensures !(key == Enter && old(selectedItemIndex) == 0) ==>
        flags.inGame == old(flags.inGame) && flags.inGameOverScreen == old(flags.inGameOverScreen)
    {
      closeWindow := false;
      match key {
        case Up =>
          if selectedItemIndex > 0 {
            selectedItemIndex := selectedItemIndex - 1;
          }
        case Down =>
          if selectedItemIndex < 1 {
            selectedItemIndex := selectedItemIndex + 1;
          }
        case Enter =>
          if selectedItemIndex == 0 {
            flags.inGame := true;
            flags.inGameOverScreen := false;
          } else if selectedItemIndex == 1 {
            closeWindow := true;
          }
        case Other =>
      }
    }

    /** main.cpp:221-223. */
    method GetSelectedItemIndex() returns (i: int)
      ensures i == selectedItemIndex
    {
      i := selectedItemIndex;
    }
  }

  /** From Start, Down selects Exit, and a second Down stays there. */
  lemma DownTwice()
    ensures NextIndex(0, Down) == 1 && NextIndex(NextIndex(0, Down), Down) == 1
  {
  }
}
