/**
 * The director of all bridges (src/tootbridge/BridgeDirector.py): it builds
 * one bridge per credentials record and, after a pass, writes the records
 * back with each bridge's watermark. Reading and writing the JSON file is
 * left out; the records are what the file holds.
 */
module BridgeDirectors {
  import opened Wrappers
  import opened Bridges

  /** One entry of the credentials file, `LAST_POSTED_ID` already read as an integer. */
  datatype CredentialRecord = CredentialRecord(twitterUsername: string, hostInstance: string, lastPostedId: int, appSecureToken: string)

  /** The persistent state of one bridge: what it is built from and what is written back. */
  datatype BridgeSettings = BridgeSettings(instanceUrl: string, apiToken: string, username: string, lastRelayedId: int, twitterApiUrl: string)

  function FromRecord(rec: CredentialRecord, twitterApi: string): (settings: BridgeSettings) {
    BridgeSettings(rec.hostInstance, rec.appSecureToken, rec.twitterUsername, rec.lastPostedId, twitterApi)
  }

  function ToRecord(settings: BridgeSettings): (rec: CredentialRecord) {
    CredentialRecord(settings.username, settings.instanceUrl, settings.lastRelayedId, settings.apiToken)
  }

  function FromRecords(credentials: seq<CredentialRecord>, twitterApi: string): (r: seq<BridgeSettings>)
    ensures |r| == |credentials|
    decreases |credentials|
  {
    if credentials == [] then [] else [FromRecord(credentials[0], twitterApi)] + FromRecords(credentials[1..], twitterApi)
  }

  /** The settings `_get_bridges` builds its bridges from; an empty file fails its assertion. */
  function Load(credentials: seq<CredentialRecord>, twitterApi: string): (loaded: Option<seq<BridgeSettings>>) {
    if credentials == [] then None else Some(FromRecords(credentials, twitterApi))
  }

  /** The records `update_credentials` writes, one per bridge, in the order of the bridges. */
  function Dump(settings: seq<BridgeSettings>): (r: seq<CredentialRecord>)
    ensures |r| == |settings|
    decreases |settings|
  {
    if settings == [] then [] else [ToRecord(settings[0])] + Dump(settings[1..])
  }

  lemma {:induction false} FromRecordsAt(credentials: seq<CredentialRecord>, twitterApi: string)
    ensures forall k :: 0 <= k < |credentials| ==> FromRecords(credentials, twitterApi)[k] == FromRecord(credentials[k], twitterApi)
    decreases |credentials|
  {
    if credentials != [] {
      FromRecordsAt(credentials[1..], twitterApi);
      var r := FromRecords(credentials, twitterApi);
      forall k | 0 < k < |credentials| ensures r[k] == FromRecord(credentials[k], twitterApi) {
        assert r[k] == FromRecords(credentials[1..], twitterApi)[k - 1];
      }
    }
  }

  lemma {:induction false} DumpAt(settings: seq<BridgeSettings>)
    ensures forall k :: 0 <= k < |settings| ==> Dump(settings)[k] == ToRecord(settings[k])
    decreases |settings|
  {
    if settings != [] {
      DumpAt(settings[1..]);
      var r := Dump(settings);
      forall k | 0 < k < |settings| ensures r[k] == ToRecord(settings[k]) {
        assert r[k] == Dump(settings[1..])[k - 1];
      }
    }
  }

  /**
   * Loading the records and writing them straight back reproduces them: none
   * of the four fields of a record is lost or changed, the order is kept,
   * and nothing is written for an empty file because loading it fails.
   */
  lemma {:induction false} LoadThenDump(credentials: seq<CredentialRecord>, twitterApi: string)
    ensures Load(credentials, twitterApi).None? <==> credentials == []
    ensures Load(credentials, twitterApi).Some? ==> Dump(Load(credentials, twitterApi).value) == credentials
    decreases |credentials|
  {
    if credentials != [] {
      LoadThenDump(credentials[1..], twitterApi);
      if credentials[1..] != [] {
        assert Dump(FromRecords(credentials[1..], twitterApi)) == credentials[1..];
      }
      assert credentials == [credentials[0]] + credentials[1..];
    }
  }

  /**
   * Writing bridges back and loading the result with the same Twitter API
   * endpoint gives the same bridges: the watermark written is the one read
   * on the next run.
   */
  lemma {:induction false} DumpThenLoad(settings: seq<BridgeSettings>, twitterApi: string)
    requires settings != []
    requires forall k :: 0 <= k < |settings| ==> settings[k].twitterApiUrl == twitterApi
    ensures Load(Dump(settings), twitterApi) == Some(settings)
  {
    DumpAt(settings);
    FromRecordsAt(Dump(settings), twitterApi);
    assert FromRecords(Dump(settings), twitterApi) == settings;
  }

  // ---------------------------------------------------------------------------
  // The bridges themselves

  function SettingsOf(bridge: Bridge): (settings: BridgeSettings)
    reads bridge
  {
    BridgeSettings(bridge.mastodonInstanceUrl, bridge.mastodonApiToken, bridge.twitterAccUsername,
                   bridge.lastRelayedTweetId, bridge.twitterApiUrl)
  }

  function SettingsOfAll(bridges: seq<Bridge>): (r: seq<BridgeSettings>)
    reads bridges
    ensures |r| == |bridges|
    decreases |bridges|
  {
    if bridges == [] then [] else [SettingsOf(bridges[0])] + SettingsOfAll(bridges[1..])
  }

  /**
   * `_get_bridges`: one new bridge per record, in the order of the file,
   * with an empty queue and the director's Twitter API endpoint; an empty
   * file fails the assertion and builds nothing.
   */
  method GetBridges(credentials: seq<CredentialRecord>, twitterApi: string) returns (r: Option<seq<Bridge>>)
    ensures r.None? <==> Load(credentials, twitterApi).None?
    ensures r.Some? ==> SettingsOfAll(r.value) == Load(credentials, twitterApi).value
    ensures r.Some? ==> forall k :: 0 <= k < |r.value| ==> fresh(r.value[k]) && r.value[k].pendingTweets == []
    ensures r.Some? ==> forall j, k :: 0 <= j < k < |r.value| ==> r.value[j] != r.value[k]
  {
    if credentials == [] {
      return None;
    }
    var bridges: seq<Bridge> := [];
    for n := 0 to |credentials|
      invariant |bridges| == n
      invariant forall k :: 0 <= k < n ==> fresh(bridges[k]) && bridges[k].pendingTweets == []
      invariant forall k :: 0 <= k < n ==> SettingsOf(bridges[k]) == FromRecord(credentials[k], twitterApi)
      invariant forall j, k :: 0 <= j < k < n ==> bridges[j] != bridges[k]
    {
      var bridge := credentials[n];
      var b := new Bridge(bridge.hostInstance, bridge.appSecureToken, bridge.twitterUsername, bridge.lastPostedId, twitterApi);
      bridges := bridges + [b];
    }
    FromRecordsAt(credentials, twitterApi);
    SettingsOfAllAt(bridges);
    r := Some(bridges);
  }

  lemma {:induction false} SettingsOfAllAt(bridges: seq<Bridge>)
    ensures forall k :: 0 <= k < |bridges| ==> SettingsOfAll(bridges)[k] == SettingsOf(bridges[k])
    decreases |bridges|
  {
    if bridges != [] {
      SettingsOfAllAt(bridges[1..]);
      var r := SettingsOfAll(bridges);
      forall k | 0 < k < |bridges| ensures r[k] == SettingsOf(bridges[k]) {
        assert r[k] == SettingsOfAll(bridges[1..])[k - 1];
      }
    }
  }

  /**
   * `update_credentials`: one record per bridge, in order, carrying the
   * bridge's accounts, token and current watermark.
   */
  function UpdatedCredentials(bridges: seq<Bridge>): (records: seq<CredentialRecord>)
    reads bridges
    ensures |records| == |bridges|
    ensures forall k :: 0 <= k < |bridges| ==>
              && records[k].lastPostedId == bridges[k].lastRelayedTweetId
              && records[k].twitterUsername == bridges[k].twitterAccUsername
              && records[k].hostInstance == bridges[k].mastodonInstanceUrl
              && records[k].appSecureToken == bridges[k].mastodonApiToken
  {
    SettingsOfAllAt(bridges);
    DumpAt(SettingsOfAll(bridges));
    Dump(SettingsOfAll(bridges))
  }
}
