/** The configuration-change gate: configuration_changed, save_current_config
    and the decision of validate_worker_config.

    The settings are the libraries' plugin configuration; the MD5 digest of
    their sorted JSON encoding is a function the caller supplies. Only its one
    relevant fact is assumed where a lemma needs it: a hex digest is never the
    empty string. */
module ConfigGate {

  datatype PluginSettings = PluginSettings(pluginId: string, settings: map<string, string>)

  /** One library's entry: its enabled plugins with their settings, and its plugin flow. */
  datatype LibraryConfig = LibraryConfig(enabledPlugins: seq<PluginSettings>, pluginFlow: seq<string>)

  /** The configuration of every library, keyed by library id. */
  type Settings = map<int, LibraryConfig>

  /** current_config: the settings last recorded and their digest. */
  datatype Config = Config(settings: Settings, settingsHash: string)

  /** The configuration the Foreman starts from. */
  const Initial: Config := Config(map[], "")

  /** An MD5 hex digest: 32 characters. */
  predicate Digest(h: string)
  {
    |h| == 32
  }

  /** save_current_config: each part is stored only when it is truthy, so an
      empty settings map (or None) keeps the old settings and an empty digest
      keeps the old digest. */
  function Save(c: Config, settings: Settings, settingsHash: string): (r: Config)
  {
    Config(if settings != map[] then settings else c.settings,
           if settingsHash != "" then settingsHash else c.settingsHash)
  }

  datatype Observation = Observation(changed: bool, next: Config)

  /** configuration_changed, given the current settings and their digest. */
  function Observe(c: Config, current: Settings, currentHash: string): (r: Observation)
  {
    if currentHash == c.settingsHash then Observation(false, c)
    else Observation(true, Save(c, current, currentHash))
  }

  /** The verdict of validate_worker_config from its three checks. */
  function Verdict(incompatiblePlugins: bool, changed: bool, withinLimits: bool): (valid: bool)
  {
    !incompatiblePlugins && !changed && withinLimits
  }

  /* ---------------------------------------------------------------------- */

  /** Saving never forgets: what is not supplied is kept, what is supplied is stored. */
  lemma SaveKeeps(c: Config, settings: Settings, settingsHash: string)
    ensures settings == map[] ==> Save(c, settings, settingsHash).settings == c.settings
    ensures settings != map[] ==> Save(c, settings, settingsHash).settings == settings
    ensures settingsHash == "" ==> Save(c, settings, settingsHash).settingsHash == c.settingsHash
    ensures settingsHash != "" ==> Save(c, settings, settingsHash).settingsHash == settingsHash
    ensures Save(c, map[], "") == c
  {
  }

  /** A change is reported exactly when the digest differs from the stored one;
      a reported change records the new digest when it is non-empty (and the
      settings, when there are any); no change leaves the record alone. */
  lemma ObserveChangedIff(c: Config, current: Settings, currentHash: string)
    ensures Observe(c, current, currentHash).changed <==> currentHash != c.settingsHash
    ensures Observe(c, current, currentHash).changed ==>
      (currentHash != "" ==> Observe(c, current, currentHash).next.settingsHash == currentHash)
      && (current != map[] ==> Observe(c, current, currentHash).next.settings == current)
    ensures !Observe(c, current, currentHash).changed ==> Observe(c, current, currentHash).next == c
  {
  }

  /** Debounce: observing the same digest straight away again reports no change. */
  lemma ObserveTwiceQuiet(c: Config, current: Settings, currentHash: string)
    requires Digest(currentHash)
    ensures !Observe(Observe(c, current, currentHash).next, current, currentHash).changed
  {
  }

  /** A reported change makes the worker configuration invalid. */
  lemma ChangeInvalidates(incompatiblePlugins: bool, withinLimits: bool)
    ensures !Verdict(incompatiblePlugins, true, withinLimits)
  {
  }

  /** The record after observing a series of snapshots, one per pass. */
  function ObserveAll(c: Config, snapshots: seq<(Settings, string)>): Config
  {
    if |snapshots| == 0 then c
    else
      var before := ObserveAll(c, snapshots[..|snapshots| - 1]);
      var s := snapshots[|snapshots| - 1];
      Observe(before, s.0, s.1).next
  }

  /** What each pass of a series reports. */
  function ChangesOf(c: Config, snapshots: seq<(Settings, string)>): (r: seq<bool>)
    ensures |r| == |snapshots|
  {
    if |snapshots| == 0 then []
    else
      var init := snapshots[..|snapshots| - 1];
      var s := snapshots[|snapshots| - 1];
      ChangesOf(c, init) + [Observe(ObserveAll(c, init), s.0, s.1).changed]
  }

  /** Over a series of passes whose digests are real digests, the stored digest
      is always the last one seen. */
  lemma {:induction false} ObserveAllHash(c: Config, snapshots: seq<(Settings, string)>)
    requires forall i :: 0 <= i < |snapshots| ==> Digest(snapshots[i].1)
    requires |snapshots| > 0
    ensures ObserveAll(c, snapshots).settingsHash == snapshots[|snapshots| - 1].1
  {
    var init := snapshots[..|snapshots| - 1];
    if |init| > 0 {
      ObserveAllHash(c, init);
    }
  }

  /** The gate as a whole: the first pass reports a change exactly when its
      digest differs from the initial record, and every later pass exactly when
      its digest differs from the previous pass's digest. */
  lemma {:induction false} ChangesOfIff(c: Config, snapshots: seq<(Settings, string)>)
    requires forall i :: 0 <= i < |snapshots| ==> Digest(snapshots[i].1)
    ensures |snapshots| > 0 ==> (ChangesOf(c, snapshots)[0] <==> snapshots[0].1 != c.settingsHash)
    ensures forall i :: 0 < i < |snapshots| ==> (ChangesOf(c, snapshots)[i] <==> snapshots[i].1 != snapshots[i - 1].1)
  {
    if |snapshots| > 0 {
      var init := snapshots[..|snapshots| - 1];
      ChangesOfIff(c, init);
      var n := |snapshots| - 1;
      if n > 0 {
        ObserveAllHash(c, init);
      }
      forall i | 0 <= i < n
        ensures ChangesOf(c, snapshots)[i] == ChangesOf(c, init)[i]
        ensures snapshots[i] == init[i]
      {
      }
    }
  }
}
