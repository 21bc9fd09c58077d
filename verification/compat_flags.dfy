/**
 * The per-user compatibility layers of Windows (index.js:13, 56-91): the
 * string values under
 * HKCU\Software\Microsoft\Windows NT\CurrentVersion\AppCompatFlags\Layers,
 * one per executable path, whose data lists the layers applied to it. The
 * tool reads one value with `reg query`, writes it with `reg add` and
 * deletes it with `reg delete`; `LayerStore` is that key as those three
 * commands see it.
 */
module CompatFlags {
  import opened Wrappers
  import opened JsText
  import opened RegOutput

  /** The data `reg add` writes: the layer that starts a program without elevation. */
  const RunAsInvokerLayer: string := "~ RunAsInvoker"

  /** The text whose presence in the query output counts as "set". */
  const Marker: string := "RunAsInvoker"

  /** The Layers key with its root spelled out, as `reg query` prints it (COMPAT_PATH abbreviates the root to `HKCU`). */
  function LayersKeyName(): string {
    "HKEY_CURRENT_USER" + "\\Software" + "\\Microsoft" + "\\Windows NT" + "\\CurrentVersion"
    + "\\AppCompatFlags" + "\\Layers"
  }

  /**
   * What `reg query <Layers> /v <name>` prints for a present value: an
   * empty line, the key, the value line (four blanks, name, four blanks,
   * type, four blanks, data) and an empty line.
   */
  function ValueListing(name: string, data: string): string {
    "\r\n" + LayersKeyName() + "\r\n    " + name + "    REG_SZ    " + data + "\r\n\r\n"
  }

  /** The key name holds no `k`, the one letter of the marker used to rule it out. */
  lemma LayersKeyNameLacksK()
    ensures 'k' !in LayersKeyName()
  {
    assert 'k' !in "HKEY_CURRENT_USER";
    assert 'k' !in "\\Software";
    assert 'k' !in "\\Microsoft";
    assert 'k' !in "\\Windows NT";
    assert 'k' !in "\\CurrentVersion";
    assert 'k' !in "\\AppCompatFlags";
    assert 'k' !in "\\Layers";
  }

  /** The Layers key as `reg.exe` reads and writes it. */
  class LayerStore {
    /** Executable path to its list of layers. */
    var layers: map<string, string>
    /** Whether `reg add` and `reg delete` on the key are let through. */
    var writable: bool

    constructor (layers: map<string, string>, writable: bool)
      ensures this.layers == layers && this.writable == writable
    {
      this.layers := layers;
      this.writable := writable;
    }

    /**
     * `reg query "<Layers>" /v "<name>"` as `reg.exe` is assumed to answer it
     * (this stands for the external command, not for code of the tool): the
     * value's listing, or a failure when there is no such value.
     */
    function Query(name: string): (reply: Reply)
      reads this
      ensures reply.Failed? <==> name !in layers
      ensures reply.Stdout? ==> reply.text == ValueListing(name, layers[name])
    {
      if name in layers then Stdout(ValueListing(name, layers[name])) else Failed
    }

    /** `reg add "<Layers>" /v "<name>" /t REG_SZ /d "<data>" /f`: creates the value or overwrites its data. */
    method Add(name: string, data: string) returns (ok: bool)
      modifies this
      ensures ok == writable && writable == old(writable)
      ensures layers == if ok then old(layers)[name := data] else old(layers)
    {
      ok := writable;
      if ok {
        layers := layers[name := data];
      }
    }

    /** `reg delete "<Layers>" /v "<name>" /f`: removes the value; fails when it is absent. */
    method Delete(name: string) returns (ok: bool)
      modifies this
      ensures ok == (writable && name in old(layers)) && writable == old(writable)
      ensures layers == if ok then old(layers) - {name} else old(layers)
    {
      ok := writable && name in layers;
      if ok {
        layers := layers - {name};
      }
    }
  }

  /**
   * What `checkPrivilegeSetting(exePath)` reports against `layers`: false for
   * a missing or empty path and for a failed query, otherwise whether the
   * query output contains `RunAsInvoker`.
   */
  predicate IsPrivilegeSet(layers: map<string, string>, exePath: Option<string>) {
    match exePath
    case None => false
    case Some(path) => path != "" && path in layers && Includes(ValueListing(path, layers[path]), Marker)
  }

  /** `checkPrivilegeSetting` (index.js:56-65). */
  method CheckPrivilegeSetting(store: LayerStore, exePath: Option<string>) returns (isSet: bool)
    ensures isSet == IsPrivilegeSet(store.layers, exePath)
  {
    if exePath.None? || exePath.value == "" {
      return false;
    }
    var reply := store.Query(exePath.value);
    match reply
    case Failed =>
      return false;
    case Stdout(text) =>
      return Includes(text, Marker);
  }

  /**
   * `applyPrivilege` (index.js:70-78): the value for `exePath` becomes
   * exactly `~ RunAsInvoker`, replacing any layers it listed before; a
   * refused write leaves the key as it was and is only reported.
   */
  method ApplyPrivilege(store: LayerStore, exePath: string) returns (ok: bool)
    modifies store
    ensures ok == store.writable && store.writable == old(store.writable)
    ensures store.layers == if ok then old(store.layers)[exePath := RunAsInvokerLayer] else old(store.layers)
  {
    ok := store.Add(exePath, RunAsInvokerLayer);
  }

  /**
   * `removePrivilege` (index.js:83-91): the value for `exePath` is deleted
   * with all the layers it listed; a refused or failing delete is only reported.
   */
  method RemovePrivilege(store: LayerStore, exePath: string) returns (ok: bool)
    modifies store
    ensures ok == (store.writable && exePath in old(store.layers)) && store.writable == old(store.writable)
    ensures store.layers == if ok then old(store.layers) - {exePath} else old(store.layers)
  {
    ok := store.Delete(exePath);
  }

  /**
   * The marker is found in the query output exactly when it occurs in the
   * value name or in the data: the fixed text around them holds no `k`
   * and meets them at blanks and line breaks, which the marker lacks.
   */
  lemma ListingIncludesMarkerIff(name: string, data: string)
    ensures Includes(ValueListing(name, data), Marker) <==> Includes(name, Marker) || Includes(data, Marker)
  {
    var head := "\r\n" + LayersKeyName() + "\r\n    ";
    assert ValueListing(name, data) == head + name + "    REG_SZ    " + data + "\r\n\r\n";
    MarkerLetters();
    ListingFrame();
    IncludesFramed(head, name, "    REG_SZ    ", data, "\r\n\r\n", Marker, 9);
  }

  /** The letters of the marker the listing argument relies on. */
  lemma MarkerLetters()
    ensures |Marker| == 12 && Marker[9] == 'k' && ' ' !in Marker && '\r' !in Marker
  {
  }

  /** The fixed text of a listing: no `k` in it, and blanks or line breaks where it meets the name and data. */
  lemma ListingFrame()
    ensures var head := "\r\n" + LayersKeyName() + "\r\n    ";
            'k' !in head && head[|head| - 1] == ' '
    ensures 'k' !in "    REG_SZ    " && 'k' !in "\r\n\r\n"
  {
    LayersKeyNameLacksK();
  }

  /**
   * Text found in `head + name + mid + data + tail`, where the fixed parts
   * lack a character of `t` and the parts meet at characters `t` does not
   * hold, is found in `name` or in `data`, and conversely.
   */
  lemma {:induction false} IncludesFramed(head: string, name: string, mid: string, data: string, tail: string, t: string, k: nat)
    requires k < |t| && t[k] !in head && t[k] !in mid && t[k] !in tail
    requires head != [] && head[|head| - 1] !in t
    requires mid != [] && mid[0] !in t && mid[|mid| - 1] !in t
    requires tail != [] && tail[0] !in t
    ensures Includes(head + name + mid + data + tail, t) <==> Includes(name, t) || Includes(data, t)
  {
    var withName := head + name;
    var withMid := withName + mid;
    var withData := withMid + data;
    IncludesNeedsChar(head, t, k);
    IncludesNeedsChar(mid, t, k);
    IncludesNeedsChar(tail, t, k);
    IncludesSplit(withData, tail, t);
    IncludesSplit(withMid, data, t);
    IncludesSplit(withName, mid, t);
    IncludesSplit(head, name, t);
    if Includes(name, t) {
      IncludesWithin(head, name, mid + data + tail, t);
      assert head + name + (mid + data + tail) == withData + tail;
    }
    if Includes(data, t) {
      IncludesWithin(withMid, data, tail, t);
    }
  }

  /** The check reports "set" exactly for a non-empty path whose value exists and whose name or data holds the marker. */
  lemma PrivilegeSetIff(layers: map<string, string>, path: string)
    ensures IsPrivilegeSet(layers, Some(path)) <==>
            path != "" && path in layers && (Includes(path, Marker) || Includes(layers[path], Marker))
  {
    if path in layers {
      ListingIncludesMarkerIff(path, layers[path]);
    }
  }

  /** After a successful apply the check reports "set", whatever the value held before. */
  lemma SetAfterApply(layers: map<string, string>, path: string)
    requires path != ""
    ensures IsPrivilegeSet(layers[path := RunAsInvokerLayer], Some(path))
  {
    IncludesInfix("~ ", Marker, "");
    assert "~ " + Marker + "" == RunAsInvokerLayer;
    PrivilegeSetIff(layers[path := RunAsInvokerLayer], path);
  }

  /** After a successful remove the check reports "not set", and every other value is untouched. */
  lemma ClearAfterRemove(layers: map<string, string>, path: string)
    ensures !IsPrivilegeSet(layers - {path}, Some(path))
    ensures forall other :: other != path ==> IsPrivilegeSet(layers - {path}, Some(other)) == IsPrivilegeSet(layers, Some(other))
  {
  }

  /** Applying twice leaves the key as applying once. */
  lemma ApplyIdempotent(layers: map<string, string>, path: string)
    ensures layers[path := RunAsInvokerLayer][path := RunAsInvokerLayer] == layers[path := RunAsInvokerLayer]
  {
  }

  /**
   * A path that itself contains `RunAsInvoker` is reported as set as soon
   * as it has any value, whatever that value's layers are.
   */
  lemma MarkerInPathCountsAsSet(layers: map<string, string>, path: string)
    requires path in layers && Includes(path, Marker)
    ensures IsPrivilegeSet(layers, Some(path))
  {
    PrivilegeSetIff(layers, path);
  }
}
