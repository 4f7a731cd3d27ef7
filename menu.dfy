// The main menu's key handling in displayUi (Main.py lines 200-247):
// `selectedIdx` moves up and down within the five options, and Enter either
// runs the selected action or, on "Quit", leaves the loop. Drawing and the
// actions' own screens are not modelled; the keys the loop reads with
// `getch` are an input sequence.
module Menu {

  const Options: seq<string> := ["List Files", "List Peers", "Add Peer", "Download File", "Quit"]

  /** The curses key codes the loop tests for. */
  const KeyDown: int := 258
  const KeyUp: int := 259
  const KeyEnter: int := 343

  /** What one key press makes the loop do besides moving the selection. */
  datatype Action = Nothing | ListFiles | ListPeers | AddPeer | DownloadFile | Quit

  /** `key == curses.KEY_ENTER or key in [10, 13]` */
  predicate IsEnter(key: int)
  {
    key == KeyEnter || key == 10 || key == 13
  }

  /** The action Enter triggers on each option, in menu order. */
  function ActionAt(idx: nat): Action
    requires idx < |Options|
  {
    [ListFiles, ListPeers, AddPeer, DownloadFile, Quit][idx]
  }

  /**
   * One iteration of the loop: KEY_UP moves up unless at the top, KEY_DOWN
   * moves down unless at the bottom, Enter acts on the selected option, and
   * any other key does nothing.
   */
  function Step(idx: nat, key: int): (r: (nat, Action))
    requires idx < |Options|
    ensures r.0 < |Options|
    ensures r.0 != idx ==> (key == KeyUp && r.0 == idx - 1) || (key == KeyDown && r.0 == idx + 1)
    ensures r.1 != Nothing <==> IsEnter(key)
    ensures r.1 != Nothing ==> r.0 == idx
    ensures r.1 == Quit <==> IsEnter(key) && idx == |Options| - 1
  {
    if key == KeyUp && idx > 0 then (idx - 1, Nothing)
    else if key == KeyDown && idx < |Options| - 1 then (idx + 1, Nothing)
    else if IsEnter(key) then (idx, ActionAt(idx))
    else (idx, Nothing)
  }

  /**
   * The loop run over a sequence of keys from a selection: the actions it
   * dispatches in order, whether it quit, and the final selection. Keys
   * after the one that quits are never read.
   */
  function Run(idx: nat, keys: seq<int>): (seq<Action>, bool, nat)
    requires idx < |Options|
    decreases |keys|
  {
    if keys == [] then ([], false, idx)
    else
      var (next, action) := Step(idx, keys[0]);
      if action == Quit then ([], true, next)
      else
        var (rest, quit, last) := Run(next, keys[1..]);
        (if action == Nothing then rest else [action] + rest, quit, last)
  }

  /**
   * displayUi's loop over the keys `getch` returns: `selectedIdx` starts at
   * 0, stays within the options throughout, and the loop stops at Quit or,
   * in this model, when the keys run out.
   */
  method DisplayUi(keys: seq<int>) returns (dispatched: seq<Action>, quit: bool, selected: nat)
    ensures selected < |Options|
    ensures (dispatched, quit, selected) == Run(0, keys)
    ensures Quit !in dispatched && Nothing !in dispatched
  {
    selected, dispatched, quit := 0, [], false;
    var i := 0;
    assert keys[0..] == keys;
    assert [] + Run(0, keys).0 == Run(0, keys).0;
    while i < |keys|
      invariant 0 <= i <= |keys|
      invariant !quit
      invariant selected < |Options|
      invariant Quit !in dispatched && Nothing !in dispatched
      invariant Run(0, keys) == (dispatched + Run(selected, keys[i..]).0, Run(selected, keys[i..]).1, Run(selected, keys[i..]).2)
      decreases |keys| - i
    {
      var key := keys[i];
      assert keys[i..][0] == key && keys[i..][1..] == keys[i + 1..];
      ghost var step := Step(selected, key);
      ghost var before := dispatched;
      ghost var prev := Run(selected, keys[i..]);
      if key == KeyUp && selected > 0 {
        selected := selected - 1;
      } else if key == KeyDown && selected < |Options| - 1 {
        selected := selected + 1;
      } else if IsEnter(key) {
        if selected == |Options| - 1 {
          quit := true;
          assert dispatched + [] == dispatched;
          break;
        } else if selected == 0 {
          dispatched := dispatched + [ListFiles];
        } else if selected == 1 {
          dispatched := dispatched + [ListPeers];
        } else if selected == 2 {
          dispatched := dispatched + [AddPeer];
        } else if selected == 3 {
          dispatched := dispatched + [DownloadFile];
        }
      }
      assert selected == step.0;
      assert dispatched == before + (if step.1 == Nothing then [] else [step.1]);
      ghost var rest := Run(selected, keys[i + 1..]);
      assert keys[i..] != [];
      assert prev == (if step.1 == Nothing then rest.0 else [step.1] + rest.0, rest.1, rest.2);
      assert [] + rest.0 == rest.0;
      assert before + prev.0 == dispatched + rest.0;
      i := i + 1;
    }
    assert dispatched + [] == dispatched;
  }

  /** The selection never leaves the menu, whatever keys are pressed. */
  lemma {:induction false} RunInBounds(idx: nat, keys: seq<int>)
    requires idx < |Options|
    ensures Run(idx, keys).2 < |Options|
    decreases |keys|
  {
    if keys != [] {
      var (next, action) := Step(idx, keys[0]);
      if action != Quit {
        RunInBounds(next, keys[1..]);
      }
    }
  }

  /** Pressing KEY_DOWN `n` times moves the selection down `n` places, stopping at "Quit". */
  lemma {:induction false} DownSaturates(idx: nat, n: nat)
    requires idx < |Options|
    decreases n
    ensures Run(idx, seq(n, _ => KeyDown)) == ([], false, if idx + n < |Options| then idx + n else |Options| - 1)
  {
    if n > 0 {
      var keys := seq(n, _ => KeyDown);
      var next := if idx < |Options| - 1 then idx + 1 else idx;
      assert keys[1..] == seq(n - 1, _ => KeyDown);
      DownSaturates(next, n - 1);
    }
  }

  /** Pressing KEY_UP `n` times moves the selection up `n` places, stopping at the top. */
  lemma {:induction false} UpSaturates(idx: nat, n: nat)
    requires idx < |Options|
    decreases n
    ensures Run(idx, seq(n, _ => KeyUp)) == ([], false, if idx >= n then idx - n else 0)
  {
    if n > 0 {
      var keys := seq(n, _ => KeyUp);
      var next := if idx > 0 then idx - 1 else idx;
      assert keys[1..] == seq(n - 1, _ => KeyUp);
      UpSaturates(next, n - 1);
    }
  }

  /** Once the loop has quit, later keys change nothing: they are never read. */
  lemma {:induction false} QuitIgnoresLaterKeys(idx: nat, keys: seq<int>, later: seq<int>)
    requires idx < |Options|
    requires Run(idx, keys).1
    ensures Run(idx, keys + later) == Run(idx, keys)
    decreases |keys|
  {
    var (next, action) := Step(idx, keys[0]);
    assert (keys + later)[0] == keys[0];
    if action != Quit {
      assert (keys + later)[1..] == keys[1..] + later;
      QuitIgnoresLaterKeys(next, keys[1..], later);
    }
  }

  /** Enter on one of the first four options runs its action and the loop goes on from the same option. */
  lemma EnterDispatches(idx: nat, enter: int, keys: seq<int>)
    requires idx < |Options| - 1 && IsEnter(enter)
    ensures Run(idx, [enter] + keys)
         == ([ActionAt(idx)] + Run(idx, keys).0, Run(idx, keys).1, Run(idx, keys).2)
  {
    assert ([enter] + keys)[1..] == keys;
  }
}
