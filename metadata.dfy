/** `parseInstanceMetadata` (run_e2e.go): the `--instance-metadata` flag,
    `k1=v1,k2<p2`, turned into instance metadata. `k=v` gives `k` the value
    `v`; `k<p` gives `k` the contents of the local file `p`; any other entry,
    and a `k<p` whose file cannot be read, is skipped with a log line. */
module Metadata {
  import opened Wrappers
  import opened GoStrings

  /** Reading a local file: its contents, or None when the read fails. */
  type FileReader = string -> Option<string>

  /** The key and value one comma-separated entry contributes, if any. */
  function Entry(s: string, readFile: FileReader): (r: Option<(string, string)>)
    // the key is always a prefix of the entry
    ensures r.Some? ==> r.value.0 <= s
    // an entry that is not a `k=v` assignment takes its value from the file it names
    ensures r.Some? && |Split(s, '=')| != 2 ==>
      |Split(s, '<')| == 2 && readFile(Split(s, '<')[1]) == Some(r.value.1)
  {
    SplitFirstIsPrefix(s, '=');
    SplitFirstIsPrefix(s, '<');
    var kv := Split(s, '=');
    if |kv| == 2 then Some((kv[0], kv[1]))
    else
      var kp := Split(s, '<');
      if |kp| != 2 then None
      else
        match readFile(kp[1])
        case None => None
        case Some(v) => Some((kp[0], v))
  }

  /** The entry `s` sets key `k`. */
  predicate DefinesKey(s: string, readFile: FileReader, k: string)
  {
    Entry(s, readFile).Some? && Entry(s, readFile).value.0 == k
  }

  /** Some entry of `entries` sets key `k`. */
  predicate SomeEntryDefines(entries: seq<string>, readFile: FileReader, k: string)
  {
    exists i :: 0 <= i < |entries| && DefinesKey(entries[i], readFile, k)
  }

  /** The metadata built from `entries` in order, a later entry for a key
      overwriting an earlier one. */
  function MetadataOf(entries: seq<string>, readFile: FileReader): (m: map<string, string>)
    ensures forall k :: k in m ==> SomeEntryDefines(entries, readFile, k)
    decreases |entries|
  {
    if entries == [] then map[]
    else
      var m := MetadataOf(entries[..|entries| - 1], readFile);
      match Entry(entries[|entries| - 1], readFile)
      case None => m
      case Some(kv) => m[kv.0 := kv.1]
  }

  /** `parseInstanceMetadata`: fills the map entry by entry. */
  method ParseInstanceMetadata(str: string, readFile: FileReader) returns (metadata: map<string, string>)
    ensures metadata == MetadataOf(Split(str, ','), readFile)
  {
    metadata := map[];
    var ss := Split(str, ',');
    var i := 0;
    while i < |ss|
      invariant 0 <= i <= |ss|
      invariant metadata == MetadataOf(ss[..i], readFile)
    {
      var s := ss[i];
      assert ss[..i + 1][..i] == ss[..i];
      var kv := Split(s, '=');
      if |kv| == 2 {
        metadata := metadata[kv[0] := kv[1]];
      } else {
        var kp := Split(s, '<');
        if |kp| == 2 {
          var v := readFile(kp[1]);
          if v.Some? {
            metadata := metadata[kp[0] := v.value];
          }
        }
      }
      i := i + 1;
    }
    assert ss[..|ss|] == ss;
  }

  /** `k=v` sets `k` to `v`, even when `v` holds a `<` (so `a=b<c` gives
      `a` the value `b<c` and reads no file). */
  lemma EntryAssignment(k: string, v: string, readFile: FileReader)
    requires '=' !in k && '=' !in v
    ensures Entry(k + "=" + v, readFile) == Some((k, v))
  {
    SplitAfterPiece(k, '=', v);
    SplitWithoutSeparator(v, '=');
  }

  /** `k<p` sets `k` to the contents of file `p`, and is skipped when the
      read fails, whenever the entry does not hold exactly one `=` (so
      `a=b=c<p` gives the key `a=b=c` the contents of `p`). */
  lemma EntryFromFile(k: string, p: string, readFile: FileReader)
    requires Count(k + "<" + p, '=') != 1 && '<' !in k && '<' !in p
    ensures Entry(k + "<" + p, readFile) ==
      match readFile(p)
      case None => None
      case Some(v) => Some((k, v))
  {
    var s := k + "<" + p;
    SplitLength(s, '=');
    SplitAfterPiece(k, '<', p);
    SplitWithoutSeparator(p, '<');
  }

  /** By separator counts: exactly one `=` is an assignment; otherwise
      exactly one `<` is a file reference; anything else is skipped. */
  lemma EntryBySeparators(s: string, readFile: FileReader)
    ensures Count(s, '=') == 1 ==>
      |Split(s, '=')| == 2 && Entry(s, readFile) == Some((Split(s, '=')[0], Split(s, '=')[1]))
    ensures Count(s, '=') != 1 && Count(s, '<') == 1 ==>
      |Split(s, '<')| == 2 &&
      Entry(s, readFile) ==
        match readFile(Split(s, '<')[1])
        case None => None
        case Some(v) => Some((Split(s, '<')[0], v))
    ensures Count(s, '=') != 1 && Count(s, '<') != 1 ==> Entry(s, readFile) == None
  {
    SplitLength(s, '=');
    SplitLength(s, '<');
  }

  /** A key is set exactly when some entry defines it, and then it holds
      the value of the last entry that defines it. */
  lemma {:induction false} MetadataLastEntryWins(entries: seq<string>, readFile: FileReader, k: string)
    ensures k in MetadataOf(entries, readFile) <==> SomeEntryDefines(entries, readFile, k)
    ensures forall i :: (0 <= i < |entries| && DefinesKey(entries[i], readFile, k) &&
      (forall j :: i < j < |entries| ==> !DefinesKey(entries[j], readFile, k))) ==>
        k in MetadataOf(entries, readFile) &&
        MetadataOf(entries, readFile)[k] == Entry(entries[i], readFile).value.1
    decreases |entries|
  {
    if entries != [] {
      var n := |entries|;
      var init := entries[..n - 1];
      var last := entries[n - 1];
      MetadataLastEntryWins(init, readFile, k);
      assert forall i :: 0 <= i < n - 1 ==> init[i] == entries[i];
      var m := MetadataOf(entries, readFile);
      var mi := MetadataOf(init, readFile);
      if DefinesKey(last, readFile, k) {
        assert m == mi[k := Entry(last, readFile).value.1];
        assert DefinesKey(entries[n - 1], readFile, k);
      } else {
        assert k in m <==> k in mi;
        assert k in m ==> m[k] == mi[k];
        if SomeEntryDefines(entries, readFile, k) {
          var i :| 0 <= i < n && DefinesKey(entries[i], readFile, k);
          assert i < n - 1 && DefinesKey(init[i], readFile, k);
        }
        if SomeEntryDefines(init, readFile, k) {
          var i :| 0 <= i < n - 1 && DefinesKey(init[i], readFile, k);
          assert DefinesKey(entries[i], readFile, k);
        }
        forall i | 0 <= i < n && DefinesKey(entries[i], readFile, k) &&
          (forall j :: i < j < n ==> !DefinesKey(entries[j], readFile, k))
          ensures k in m && m[k] == Entry(entries[i], readFile).value.1
        {
          assert i < n - 1;
          assert forall j :: i < j < n - 1 ==> !DefinesKey(init[j], readFile, k);
        }
      }
    }
  }
}
