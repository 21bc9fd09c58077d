/**
 * Finding "Daum게임 스타터" in the registry's uninstall lists
 * (index.js:23-51). Each `reg query` the tool runs is answered by an oracle
 * that either fails (the command exits with an error, which the tool
 * catches) or returns the command's standard output.
 */
module StarterLocator {
  import opened Wrappers
  import opened RegOutput

  /** The two `reg query` commands the search issues. */
  datatype RegQuery =
    | FindData(root: string, data: string)   // reg query "<root>" /s /f "<data>" /d
    | GetValue(key: string, name: string)    // reg query "<key>" /v "<name>"

  /** The registry as the tool sees it through `reg.exe`. */
  type Registry = RegQuery -> Reply

  /** The uninstall lists searched, in order: the native view and the 32-bit view. */
  const UninstallLocations: seq<string> := [
    "HKLM\\SOFTWARE\\Microsoft\\Windows\\CurrentVersion\\Uninstall",
    "HKLM\\SOFTWARE\\WOW6432Node\\Microsoft\\Windows\\CurrentVersion\\Uninstall"
  ]

  /** The display name searched for. */
  const StarterName: string := "Daum게임 스타터"

  /** `{ installed, iconPath }`, with `iconPath` null when not installed. */
  datatype StarterInfo = StarterInfo(installed: bool, iconPath: Option<string>)

  const NotInstalled: StarterInfo := StarterInfo(false, None)

  /**
   * One pass of the loop body (index.js:25-48): the icon path this root
   * yields, or nothing when the search fails, no key line is printed, the
   * icon query fails or its output has no `DisplayIcon REG_SZ` line.
   */
  function ProbeRoot(reg: Registry, root: string): (path: Option<string>)
    ensures path.Some? ==> '"' !in path.value
  {
    match reg(FindData(root, StarterName))
    case Failed => None
    case Stdout(out) =>
      match TargetKey(out)
      case None => None
      case Some(key) =>
        match reg(GetValue(key, "DisplayIcon"))
        case Failed => None
        case Stdout(iconOut) =>
          match FindIconMatch(iconOut)
          case None => None
          case Some(capture) => Some(IconPathOf(capture))
  }

  /** The search over `roots`: the first root that yields a path decides, else not installed. */
  function Locate(reg: Registry, roots: seq<string>): (info: StarterInfo)
    ensures info.installed <==> info.iconPath.Some?
    ensures info.iconPath.Some? ==> '"' !in info.iconPath.value
    decreases |roots|
  {
    if roots == [] then NotInstalled
    else
      match ProbeRoot(reg, roots[0])
      case Some(path) => StarterInfo(true, Some(path))
      case None => Locate(reg, roots[1..])
  }

  /** The first root that yields a path decides the result, whatever the roots after it yield. */
  lemma {:induction false} LocateFirstSuccess(reg: Registry, roots: seq<string>, i: nat)
    requires i < |roots| && ProbeRoot(reg, roots[i]).Some?
    requires forall j :: 0 <= j < i ==> ProbeRoot(reg, roots[j]).None?
    ensures Locate(reg, roots) == StarterInfo(true, ProbeRoot(reg, roots[i]))
    decreases i
  {
    if i > 0 {
      assert forall j :: 0 <= j < i - 1 ==> roots[1..][j] == roots[j + 1];
      LocateFirstSuccess(reg, roots[1..], i - 1);
    }
  }

  /** The starter is reported installed exactly when some root yields a path. */
  lemma {:induction false} LocateInstalledIff(reg: Registry, roots: seq<string>)
    ensures Locate(reg, roots).installed <==> exists i :: 0 <= i < |roots| && ProbeRoot(reg, roots[i]).Some?
    decreases |roots|
  {
    if roots != [] {
      LocateInstalledIff(reg, roots[1..]);
      assert forall i :: 0 <= i < |roots[1..]| ==> roots[1..][i] == roots[i + 1];
      if ProbeRoot(reg, roots[0]).None? {
        if exists i :: 0 <= i < |roots| && ProbeRoot(reg, roots[i]).Some? {
          var i :| 0 <= i < |roots| && ProbeRoot(reg, roots[i]).Some?;
          assert ProbeRoot(reg, roots[1..][i - 1]).Some?;
        }
      }
    }
  }

  /** When no root yields a path the result is exactly `{installed: false, iconPath: null}`. */
  lemma {:induction false} LocateNothingFound(reg: Registry, roots: seq<string>)
    requires forall i :: 0 <= i < |roots| ==> ProbeRoot(reg, roots[i]).None?
    ensures Locate(reg, roots) == NotInstalled
    decreases |roots|
  {
    if roots != [] {
      assert forall i :: 0 <= i < |roots[1..]| ==> roots[1..][i] == roots[i + 1];
      LocateNothingFound(reg, roots[1..]);
    }
  }

  /**
   * A key found without a `DisplayIcon REG_SZ` line, or whose icon query
   * fails, does not make the starter installed: that root is skipped.
   */
  lemma KeyWithoutIconIsSkipped(reg: Registry, root: string, out: string, key: string)
    requires reg(FindData(root, StarterName)) == Stdout(out)
    requires TargetKey(out) == Some(key)
    requires reg(GetValue(key, "DisplayIcon")).Failed?
             || FindIconMatch(reg(GetValue(key, "DisplayIcon")).text).None?
    ensures ProbeRoot(reg, root).None?
    ensures forall rest :: Locate(reg, [root] + rest) == Locate(reg, rest)
  {
    forall rest ensures Locate(reg, [root] + rest) == Locate(reg, rest) {
      assert ([root] + rest)[1..] == rest;
    }
  }

  /** A root whose search fails, or prints no key line, is skipped. */
  lemma FailedSearchIsSkipped(reg: Registry, root: string)
    requires reg(FindData(root, StarterName)).Failed?
             || TargetKey(reg(FindData(root, StarterName)).text).None?
    ensures ProbeRoot(reg, root).None?
    ensures forall rest :: Locate(reg, [root] + rest) == Locate(reg, rest)
  {
    forall rest ensures Locate(reg, [root] + rest) == Locate(reg, rest) {
      assert ([root] + rest)[1..] == rest;
    }
  }

  /**
   * `getStarterInfo` (index.js:23-51): the roots in listed order, a failed
   * command caught and the root skipped, the first icon found returned.
   */
  method GetStarterInfo(reg: Registry) returns (info: StarterInfo)
    ensures info == Locate(reg, UninstallLocations)
  {
    var roots := UninstallLocations;
    for i := 0 to |roots|
      invariant Locate(reg, roots) == Locate(reg, roots[i..])
      invariant forall j :: 0 <= j < i ==> ProbeRoot(reg, roots[j]).None?
    {
      assert roots[i..][1..] == roots[i + 1..];
      var search := reg(FindData(roots[i], StarterName));
      if search.Failed? {
        continue;
      }
      var key := TargetKey(search.text);
      if key.Some? {
        var icon := reg(GetValue(key.value, "DisplayIcon"));
        if icon.Failed? {
          continue;
        }
        var iconMatch := FindIconMatch(icon.text);
        if iconMatch.Some? {
          return StarterInfo(true, Some(IconPathOf(iconMatch.value)));
        }
      }
    }
    LocateNothingFound(reg, roots);
    return NotInstalled;
  }
}
