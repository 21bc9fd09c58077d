/**
 * The main loop of the tool (index.js:122-160): look the starter up,
 * read its setting, show the menu, act on the answer, and start over until
 * "exit" is chosen. The console is the sequence of lines typed in answer
 * to the prompts; when it runs out before "exit" the session just stops.
 */
module App {
  import opened Wrappers
  import opened StarterLocator
  import opened CompatFlags
  import opened Menu

  /** How a session ends: "exit" chosen, or no answer left to read. */
  datatype SessionEnd = Exited | InputExhausted

  /** How a session ends and the Layers values it leaves behind. */
  datatype Outcome = Outcome(end: SessionEnd, layers: map<string, string>)

  /** What `getStarterInfo` can return: a path exactly when installed. */
  predicate WellFormed(starter: StarterInfo) {
    starter.installed <==> starter.iconPath.Some?
  }

  /** The Layers values after the chosen entry's command has run (a refused command changes nothing). */
  function Perform(action: Action, path: string, layers: map<string, string>, writable: bool): (after: map<string, string>)
    ensures forall other :: other != path ==> (other in after <==> other in layers)
    ensures forall other :: other != path && other in layers ==> after[other] == layers[other]
  {
    match action
    case ApplySetting => if writable then layers[path := RunAsInvokerLayer] else layers
    case RemoveSetting => if writable && path in layers then layers - {path} else layers
    case Exit => layers
  }

  /** The menu a pass shows: the setting is only read when the starter is installed. */
  function MenuShown(starter: StarterInfo, layers: map<string, string>): seq<Action> {
    MenuFor(starter.installed, starter.installed && IsPrivilegeSet(layers, starter.iconPath))
  }

  /**
   * The session on answers `input`, the starter being found as `starter`
   * on every pass (the uninstall lists are only read): an answer that picks
   * no entry is followed by the next pass; "exit" ends the session; apply
   * and remove run their command and then wait for one more line (the
   * pause) before the next pass.
   */
  function Session(starter: StarterInfo, layers: map<string, string>, writable: bool, input: seq<string>): Outcome
    requires WellFormed(starter)
    decreases |input|
  {
    if input == [] then Outcome(InputExhausted, layers)
    else
      match Choose(MenuShown(starter, layers), input[0])
      case None => Session(starter, layers, writable, input[1..])
      case Some(Exit) => Outcome(Exited, layers)
      case Some(action) =>
        var after := Perform(action, starter.iconPath.value, layers, writable);
        if |input| == 1 then Outcome(InputExhausted, after)
        else Session(starter, after, writable, input[2..])
  }

  /**
   * `showMenu` (index.js:103-117) on the answer `input[pos]`: an answer that
   * picks no entry is reported and leaves everything as it was; "exit" is
   * reported back; apply and remove run their command on `path` and then
   * the pause reads one more line, so the next answer is at `pos + 2`.
   */
  method ShowMenu(store: LayerStore, menu: seq<Action>, path: string, input: seq<string>, pos: nat)
      returns (exit: bool, next: nat)
    requires pos < |input|
    modifies store
    ensures store.writable == old(store.writable)
    ensures exit <==> Choose(menu, input[pos]) == Some(Exit)
    ensures Choose(menu, input[pos]).None? || exit ==> next == pos + 1 && store.layers == old(store.layers)
    ensures Choose(menu, input[pos]).Some? && !exit ==>
              next == pos + 2 && store.layers == Perform(Choose(menu, input[pos]).value, path, old(store.layers), old(store.writable))
  {
    var index := DecodeSelection(input[pos], |menu|);
    if index.None? {
      return false, pos + 1;
    }
    var action := menu[index.value];
    if action == Exit {
      return true, pos + 1;
    }
    var ok;
    if action == ApplySetting {
      ok := ApplyPrivilege(store, path);
    } else {
      ok := RemovePrivilege(store, path);
    }
    return false, pos + 2;
  }

  /**
   * `startApp` (index.js:122-160), reading its answers from `input`: the
   * session it runs is `Session` on the starter as the uninstall lists
   * show it and the Layers values it started with.
   */
  method StartApp(reg: Registry, store: LayerStore, input: seq<string>) returns (end: SessionEnd)
    modifies store
    ensures Session(Locate(reg, UninstallLocations), old(store.layers), old(store.writable), input)
            == Outcome(end, store.layers)
    ensures store.writable == old(store.writable)
  {
    ghost var found := Locate(reg, UninstallLocations);
    var pos := 0;
    while true
      invariant pos <= |input|
      invariant store.writable == old(store.writable)
      invariant Session(found, old(store.layers), old(store.writable), input)
                == Session(found, store.layers, store.writable, input[pos..])
      decreases |input| - pos
    {
      var done, next;
      done, end, next := Pass(reg, found, store, input, pos);
      if done {
        return;
      }
      pos := next;
    }
  }

  /**
   * One pass of the loop in `startApp` (index.js:124-158): find the starter,
   * read its setting, build the menu and let `showMenu` act on the answer at
   * `pos`. Either the session ends here with `end`, or it goes on from the
   * answer at `next` on the Layers values the pass leaves.
   */
  method Pass(reg: Registry, ghost found: StarterInfo, store: LayerStore, input: seq<string>, pos: nat)
      returns (done: bool, end: SessionEnd, next: nat)
    requires found == Locate(reg, UninstallLocations) && pos <= |input|
    modifies store
    ensures store.writable == old(store.writable)
    ensures done ==> Session(found, old(store.layers), store.writable, input[pos..]) == Outcome(end, store.layers)
    ensures !done ==> pos < next <= |input|
                      && Session(found, old(store.layers), store.writable, input[pos..])
                         == Session(found, store.layers, store.writable, input[next..])
  {
    var starter := GetStarterInfo(reg);
    ghost var before := store.layers;
    var menu: seq<Action> := [Exit];
    var path := "";
    if starter.installed {
      var isSet := CheckPrivilegeSetting(store, starter.iconPath);
      menu := [];
      if !isSet {
        menu := menu + [ApplySetting];
      } else {
        menu := menu + [RemoveSetting];
      }
      menu := menu + [Exit];
      path := starter.iconPath.value;
    }
    assert menu == MenuShown(found, before);
    if pos == |input| {
      return true, InputExhausted, pos;
    }
    var exit;
    exit, next := ShowMenu(store, menu, path, input, pos);
    if exit {
      ExitStep(found, before, store.writable, input, pos);
      return true, Exited, next;
    }
    if Choose(menu, input[pos]).None? {
      SkipStep(found, before, store.writable, input, pos);
      return false, InputExhausted, next;
    }
    if next > |input| {
      LastActStep(found, before, store.writable, input, pos);
      return true, InputExhausted, next;
    }
    ActStep(found, before, store.writable, input, pos);
    done, end := false, InputExhausted;
  }

  /** A pass whose answer picks nothing leads to the next pass on the same values. */
  lemma SkipStep(starter: StarterInfo, layers: map<string, string>, writable: bool, input: seq<string>, pos: nat)
    requires WellFormed(starter) && pos < |input| && Choose(MenuShown(starter, layers), input[pos]).None?
    ensures Session(starter, layers, writable, input[pos..]) == Session(starter, layers, writable, input[pos + 1..])
  {
    assert input[pos..][1..] == input[pos + 1..];
  }

  /** A pass whose answer picks "exit" ends the session on the values it has. */
  lemma ExitStep(starter: StarterInfo, layers: map<string, string>, writable: bool, input: seq<string>, pos: nat)
    requires WellFormed(starter) && pos < |input| && Choose(MenuShown(starter, layers), input[pos]) == Some(Exit)
    ensures Session(starter, layers, writable, input[pos..]) == Outcome(Exited, layers)
  {
  }

  /** A pass whose answer picks apply or remove runs that command, consumes the pause line and goes on. */
  lemma ActStep(starter: StarterInfo, layers: map<string, string>, writable: bool, input: seq<string>, pos: nat)
    requires WellFormed(starter) && pos + 1 < |input|
    requires Choose(MenuShown(starter, layers), input[pos]).Some?
    requires Choose(MenuShown(starter, layers), input[pos]).value != Exit
    ensures starter.iconPath.Some?
    ensures Session(starter, layers, writable, input[pos..])
            == Session(starter, Perform(Choose(MenuShown(starter, layers), input[pos]).value, starter.iconPath.value, layers, writable),
                       writable, input[pos + 2..])
  {
    assert input[pos..][2..] == input[pos + 2..];
  }

  /** When the pause after a command finds no line, the session stops with that command's effect. */
  lemma LastActStep(starter: StarterInfo, layers: map<string, string>, writable: bool, input: seq<string>, pos: nat)
    requires WellFormed(starter) && pos + 1 == |input|
    requires Choose(MenuShown(starter, layers), input[pos]).Some?
    requires Choose(MenuShown(starter, layers), input[pos]).value != Exit
    ensures starter.iconPath.Some?
    ensures Session(starter, layers, writable, input[pos..])
            == Outcome(InputExhausted, Perform(Choose(MenuShown(starter, layers), input[pos]).value, starter.iconPath.value, layers, writable))
  {
  }

  /** Without the starter nothing is ever written: only "exit" is offered. */
  lemma {:induction false} NotInstalledNeverWrites(starter: StarterInfo, layers: map<string, string>, writable: bool, input: seq<string>)
    requires WellFormed(starter) && !starter.installed
    ensures Session(starter, layers, writable, input).layers == layers
    decreases |input|
  {
    if input != [] && Choose([Exit], input[0]).None? {
      NotInstalledNeverWrites(starter, layers, writable, input[1..]);
    }
  }

  /** Every Layers value other than the one for the starter's icon path ends the session as it began. */
  lemma {:induction false} OnlyStarterValueChanges(starter: StarterInfo, layers: map<string, string>, writable: bool,
                                                   input: seq<string>, name: string)
    requires WellFormed(starter) && starter.iconPath != Some(name)
    ensures var after := Session(starter, layers, writable, input).layers;
            (name in after <==> name in layers) && (name in layers ==> after[name] == layers[name])
    decreases |input|
  {
    if input != [] {
      match Choose(MenuShown(starter, layers), input[0])
      case None =>
        OnlyStarterValueChanges(starter, layers, writable, input[1..], name);
      case Some(action) =>
        if action != Exit && |input| > 1 {
          var after := Perform(action, starter.iconPath.value, layers, writable);
          OnlyStarterValueChanges(starter, after, writable, input[2..], name);
        }
    }
  }

  /** An answer that is neither 1 nor 2 picks no entry, so a session of such answers changes nothing and never exits. */
  lemma {:induction false} UnreadableAnswersChangeNothing(starter: StarterInfo, layers: map<string, string>, writable: bool,
                                                          input: seq<string>)
    requires WellFormed(starter)
    requires forall i :: 0 <= i < |input| ==> ParseInt(input[i]) != Some(1) && ParseInt(input[i]) != Some(2)
    ensures Session(starter, layers, writable, input) == Outcome(InputExhausted, layers)
    decreases |input|
  {
    if input != [] {
      var menu := MenuShown(starter, layers);
      assert DecodeSelection(input[0], |menu|).None? by {
        if DecodeSelection(input[0], |menu|).Some? {
          var i := DecodeSelection(input[0], |menu|).value;
          DecodeSelectionIff(input[0], |menu|, i);
        }
      }
      UnreadableAnswersChangeNothing(starter, layers, writable, input[1..]);
    }
  }

  /**
   * Answering 1 on a starter without the setting applies it; after the
   * pause the menu offers removal instead, and 2 then exits with the
   * setting in place.
   */
  lemma ApplyThenExit(path: string, layers: map<string, string>, ack: string)
    requires path != "" && !IsPrivilegeSet(layers, Some(path))
    ensures var starter := StarterInfo(true, Some(path));
            Session(starter, layers, true, ["1", ack, "2"]) == Outcome(Exited, layers[path := RunAsInvokerLayer])
  {
    var starter := StarterInfo(true, Some(path));
    var applied := layers[path := RunAsInvokerLayer];
    TypedNumberPicksEntry(1, 2);
    TypedNumberPicksEntry(2, 2);
    assert DecimalString(1) == "1" && DecimalString(2) == "2";
    SetAfterApply(layers, path);
    assert ["1", ack, "2"][2..] == ["2"];
    assert Session(starter, applied, true, ["2"]) == Outcome(Exited, applied);
  }

  /**
   * Answering 1 twice (with the pause in between) applies and then removes
   * the setting: the value for the path is gone afterwards, including any
   * layers it listed before the tool touched it.
   */
  lemma ApplyThenRemove(path: string, layers: map<string, string>, ack1: string, ack2: string)
    requires path != "" && !IsPrivilegeSet(layers, Some(path))
    ensures var starter := StarterInfo(true, Some(path));
            Session(starter, layers, true, ["1", ack1, "1", ack2, "2"]) == Outcome(Exited, layers - {path})
  {
    var starter := StarterInfo(true, Some(path));
    var applied := layers[path := RunAsInvokerLayer];
    var removed := applied - {path};
    TypedNumberPicksEntry(1, 2);
    TypedNumberPicksEntry(2, 2);
    assert DecimalString(1) == "1" && DecimalString(2) == "2";
    SetAfterApply(layers, path);
    ClearAfterRemove(applied, path);
    assert removed == layers - {path};
    assert ["1", ack1, "1", ack2, "2"][2..] == ["1", ack2, "2"];
    assert ["1", ack2, "2"][2..] == ["2"];
    assert Session(starter, removed, true, ["2"]) == Outcome(Exited, removed);
    assert Session(starter, applied, true, ["1", ack2, "2"]) == Outcome(Exited, removed);
  }

  /**
   * An icon path that came out empty is never reported as set, so the menu
   * keeps offering to apply and never to remove, however often it is applied.
   */
  lemma EmptyPathNeverOffersRemoval(layers: map<string, string>)
    ensures MenuFor(true, IsPrivilegeSet(layers, Some(""))) == [ApplySetting, Exit]
  {
  }
}
