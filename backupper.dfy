/** The coordinator of src/main/java/cat/altimiras/glacier/backupper/GlacierBackupper.java.
    It fills in missing arguments from its settings, keeps the
    inventory in step with what it uploads and asks for, and downloads only
    a job that is ready. */
module Backupper {
  import opened Wrappers
  import opened Seqs
  import opened Records
  import opened Inventories
  import opened GlacierManager

  /** A Java String argument; None stands for null. */
  type JString = Option<string>

  /** An option counts when it is neither null nor empty. */
  predicate Given(s: JString)
  {
    s.Some? && |s.value| > 0
  }

  /** The error get throws: "<element> has not value". */
  function Missing(element: string): Error
  {
    IllegalArgument(element + " has not value")
  }

  /** get(element, options...): the first option given, scanning left to
      right; an IllegalArgumentException naming `element` when none is. */
  function Get(element: string, options: seq<JString>): (r: Result<string>)
    ensures r.Success? ==> Given(Some(r.value)) && Some(r.value) in options
    ensures r.Failure? ==> r.error == Missing(element)
    decreases |options|
  {
    if |options| == 0 then Failure(Missing(element))
    else if Given(options[0]) then Success(options[0].value)
    else Get(element, options[1..])
  }

  /** get succeeds exactly when some option is given, and then returns the
      first one given. */
  lemma {:induction false} GetIsFirstGiven(element: string, options: seq<JString>)
    ensures Get(element, options).Success? <==> exists k :: 0 <= k < |options| && Given(options[k])
    ensures Get(element, options).Success? ==>
      exists k :: 0 <= k < |options| && options[k] == Some(Get(element, options).value) &&
        forall j :: 0 <= j < k ==> !Given(options[j])
    decreases |options|
  {
    if |options| > 0 && !Given(options[0]) {
      var rest := options[1..];
      GetIsFirstGiven(element, rest);
      assert forall j :: 1 <= j < |options| ==> options[j] == rest[j - 1];
      if Get(element, rest).Success? {
        var k :| 0 <= k < |rest| && rest[k] == Some(Get(element, rest).value) &&
                 forall j :: 0 <= j < k ==> !Given(rest[j]);
        assert options[k + 1] == rest[k];
      }
    }
  }

  /** get with an argument and a fallback: the argument when given, else the
      fallback when given, else the error. */
  lemma GetPair(element: string, a: JString, b: JString)
    ensures Given(a) ==> Get(element, [a, b]) == Success(a.value)
    ensures !Given(a) && Given(b) ==> Get(element, [a, b]) == Success(b.value)
    ensures !Given(a) && !Given(b) ==> Get(element, [a, b]) == Failure(Missing(element))
  {
    if !Given(a) {
      assert [a, b][1..] == [b];
      if !Given(b) {
        assert [b][1..] == [];
      }
    }
  }

  /** The settings get falls back on: the AWS credentials and the default
      region and vault. */
  datatype Settings = Settings(awsKey: JString, awsSecret: JString, defaultRegion: JString, defaultVault: JString)

  datatype Credentials = Credentials(key: string, secret: string)

  /** The key and secret the constructor resolves, each from its argument or
      else from the settings; the key is resolved first. */
  function ResolveCredentials(awsKey: JString, awsSecret: JString, s: Settings): (r: Result<Credentials>)
    ensures r.Success? <==> (Given(awsKey) || Given(s.awsKey)) && (Given(awsSecret) || Given(s.awsSecret))
    ensures r.Success? ==> r.value.key == (if Given(awsKey) then awsKey.value else s.awsKey.value)
    ensures r.Success? ==> r.value.secret == (if Given(awsSecret) then awsSecret.value else s.awsSecret.value)
    ensures !Given(awsKey) && !Given(s.awsKey) ==> r == Failure(Missing("AWS key"))
    ensures (Given(awsKey) || Given(s.awsKey)) && !Given(awsSecret) && !Given(s.awsSecret) ==>
              r == Failure(Missing("AWS secret"))
  {
    GetPair("AWS key", awsKey, s.awsKey);
    GetPair("AWS secret", awsSecret, s.awsSecret);
    var key := Get("AWS key", [awsKey, s.awsKey]);
    var secret := Get("AWS secret", [awsSecret, s.awsSecret]);
    if key.Failure? then Failure(key.error)
    else if secret.Failure? then Failure(secret.error)
    else Success(Credentials(key.value, secret.value))
  }

  /** Where an upload goes: the archive name, region and vault. */
  datatype Target = Target(name: string, region: string, vault: string)

  /** upload's fallbacks: the name falls back to the file name, the region
      and the vault to the defaults in the settings; they are resolved in
      that order and the first one missing is reported. */
  function UploadTarget(name: JString, region: JString, vault: JString, fileName: string, s: Settings): (r: Result<Target>)
    ensures r.Success? <==>
      (Given(name) || |fileName| > 0) && (Given(region) || Given(s.defaultRegion)) && (Given(vault) || Given(s.defaultVault))
    ensures r.Success? ==> r.value.name == (if Given(name) then name.value else fileName)
    ensures r.Success? ==> r.value.region == (if Given(region) then region.value else s.defaultRegion.value)
    ensures r.Success? ==> r.value.vault == (if Given(vault) then vault.value else s.defaultVault.value)
    ensures !Given(name) && |fileName| == 0 ==> r == Failure(Missing("File Name"))
    ensures (Given(name) || |fileName| > 0) && !Given(region) && !Given(s.defaultRegion) ==>
              r == Failure(Missing("AWS Region"))
    ensures (Given(name) || |fileName| > 0) && (Given(region) || Given(s.defaultRegion)) &&
            !Given(vault) && !Given(s.defaultVault) ==>
              r == Failure(Missing("Vault"))
  {
    GetPair("File Name", name, Some(fileName));
    GetPair("AWS Region", region, s.defaultRegion);
    GetPair("Vault", vault, s.defaultVault);
    var n := Get("File Name", [name, Some(fileName)]);
    var rg := Get("AWS Region", [region, s.defaultRegion]);
    var v := Get("Vault", [vault, s.defaultVault]);
    if n.Failure? then Failure(n.error)
    else if rg.Failure? then Failure(rg.error)
    else if v.Failure? then Failure(v.error)
    else Success(Target(n.value, rg.value, v.value))
  }

  /** The settings after configure: each one given is replaced, every other
      one is kept. */
  function Configured(s: Settings, awsKey: JString, awsSecret: JString, region: JString, vault: JString): (r: Settings)
    ensures Given(awsKey) ==> r.awsKey == awsKey
    ensures Given(awsSecret) ==> r.awsSecret == awsSecret
    ensures Given(region) ==> r.defaultRegion == region
    ensures Given(vault) ==> r.defaultVault == vault
    ensures !Given(awsKey) ==> r.awsKey == s.awsKey
    ensures !Given(awsSecret) ==> r.awsSecret == s.awsSecret
    ensures !Given(region) ==> r.defaultRegion == s.defaultRegion
    ensures !Given(vault) ==> r.defaultVault == s.defaultVault
  {
    Settings(
      if Given(awsKey) then awsKey else s.awsKey,
      if Given(awsSecret) then awsSecret else s.awsSecret,
      if Given(region) then region else s.defaultRegion,
      if Given(vault) then vault else s.defaultVault)
  }

  /** Once a region and a vault are configured, an upload that names
      neither goes to them. */
  lemma ConfiguredDefaultsUsed(s: Settings, awsKey: JString, awsSecret: JString, region: JString, vault: JString,
                               name: JString, fileName: string)
    requires Given(region) && Given(vault) && (Given(name) || |fileName| > 0)
    ensures var t := UploadTarget(name, None, None, fileName, Configured(s, awsKey, awsSecret, region, vault));
      t.Success? && t.value.region == region.value && t.value.vault == vault.value
  {
  }

  /** Configuring never loses a setting, and configuring twice with the
      same arguments is configuring once. */
  lemma ConfigureKeepsAndSettles(s: Settings, awsKey: JString, awsSecret: JString, region: JString, vault: JString)
    ensures var c := Configured(s, awsKey, awsSecret, region, vault);
      && (Given(s.awsKey) ==> Given(c.awsKey))
      && (Given(s.awsSecret) ==> Given(c.awsSecret))
      && (Given(s.defaultRegion) ==> Given(c.defaultRegion))
      && (Given(s.defaultVault) ==> Given(c.defaultVault))
      && Configured(c, awsKey, awsSecret, region, vault) == c
  {
  }

  /** The coordinator: the inventory store, the Glacier service reached with
      the resolved credentials, and the settings of the inventory it read. */
  class GlacierBackupper {
    const store: InventoryManagerJson
    const clients: string -> Glacier
    const credentials: Credentials
    var settings: Settings

    constructor Init(store: InventoryManagerJson, clients: string -> Glacier, credentials: Credentials, settings: Settings)
      ensures this.store == store && this.clients == clients
      ensures this.credentials == credentials && this.settings == settings
    {
      this.store := store;
      this.clients := clients;
      this.credentials := credentials;
      this.settings := settings;
    }

    /** The constructor: resolves the key and the secret, failing with an
        IllegalArgumentException when either is missing. */
    static method Open(store: InventoryManagerJson, clients: string -> Glacier, settings: Settings,
                       awsKey: JString, awsSecret: JString) returns (r: Result<GlacierBackupper>)
      ensures r.Failure? <==> ResolveCredentials(awsKey, awsSecret, settings).Failure?
      ensures r.Failure? ==> r.error == ResolveCredentials(awsKey, awsSecret, settings).error
      ensures r.Success? ==> fresh(r.value) && r.value.store == store && r.value.clients == clients
      ensures r.Success? ==> r.value.credentials == ResolveCredentials(awsKey, awsSecret, settings).value
      ensures r.Success? ==> r.value.settings == settings
    {
      var c := ResolveCredentials(awsKey, awsSecret, settings);
      if c.Failure? {
        return Failure(c.error);
      }
      var b := new GlacierBackupper.Init(store, clients, c.value, settings);
      return Success(b);
    }

    /** upload: resolves the name, region and vault; an archive whose name
        the inventory already has is not uploaded again. Otherwise the file
        is uploaded once and, when that succeeds, an item with the returned
        archive id and the file's length is appended and the inventory
        stored. */
    method Upload(sha: Bytes -> Bytes, name: JString, vault: JString, region: JString,
                  fileName: string, file: Bytes, chunkSize: int, now: Timestamp)
      returns (r: Result<()>, sent: seq<Request>)
      modifies store, store.inventory
      ensures var t := UploadTarget(name, region, vault, fileName, settings);
        t.Failure? ==> r == Failure(t.error) && sent == []
      ensures var t := UploadTarget(name, region, vault, fileName, settings);
        t.Success? && old(store.FindItemByName(t.value.name)).Some? ==> r.Success? && sent == []
      ensures var t := UploadTarget(name, region, vault, fileName, settings);
        t.Success? && old(store.FindItemByName(t.value.name)).None? ==>
          var e := UploadSpec(sha, clients, t.value.name, file, t.value.region, t.value.vault, chunkSize);
          && sent == e.sent
          && (e.result.Failure? ==> r == Failure(e.result.error))
          && (e.result.Success? ==>
                && r.Success?
                && store.inventory.items == old(store.inventory.items) +
                     [NewItem(t.value.name, e.result.value, |file|, t.value.vault, t.value.region, now)]
                && store.inventory.jobs == old(store.inventory.jobs)
                && store.stored == old(store.stored) + [Snapshot(store.inventory.items, store.inventory.jobs)]
                && store.FindItemByName(t.value.name).Some?)
      ensures r.Failure? || sent == [] ==>
        store.inventory.items == old(store.inventory.items) && store.inventory.jobs == old(store.inventory.jobs) &&
        store.stored == old(store.stored)
    {
      var t := UploadTarget(name, region, vault, fileName, settings);
      if t.Failure? {
        return Failure(t.error), [];
      }
      var exist := store.FindItemByName(t.value.name);
      if exist.Some? {
        return Success(()), [];
      }
      var e := GlacierManager.Upload(sha, clients, t.value.name, file, t.value.region, t.value.vault, chunkSize);
      if e.result.Failure? {
        return Failure(e.result.error), e.sent;
      }
      var item := NewItem(t.value.name, e.result.value, |file|, t.value.vault, t.value.region, now);
      store.AddItem(item);
      assert store.inventory.items[|store.inventory.items| - 1].name == t.value.name;
      return Success(()), e.sent;
    }

    /** createDownloadJob: asks for a retrieval of the item with that name.
        An unknown name sends nothing and adds no job; a known one sends one
        job request and, when the service returns a job id, appends a job
        for the item's archive, name, region and vault and stores. */
    method CreateDownloadJob(name: string, urgent: bool, now: Timestamp) returns (sent: seq<Request>)
      modifies store, store.inventory
      ensures old(store.FindItemByName(name)).None? ==> sent == []
      ensures old(store.FindItemByName(name)).Some? ==>
        var item := old(store.FindItemByName(name)).value;
        var e := AskToDownload(clients, item, urgent);
        && sent == e.sent
        && (e.result.value.Some? ==>
              && store.inventory.jobs == old(store.inventory.jobs) +
                   [NewJob(e.result.value.value, item.archiveId, item.name, item.region, item.vault, now)]
              && store.inventory.items == old(store.inventory.items)
              && store.stored == old(store.stored) + [Snapshot(store.inventory.items, store.inventory.jobs)])
      ensures old(store.FindItemByName(name)).None? ||
              AskToDownload(clients, old(store.FindItemByName(name)).value, urgent).result.value.None? ==>
        store.inventory.items == old(store.inventory.items) && store.inventory.jobs == old(store.inventory.jobs) &&
        store.stored == old(store.stored)
    {
      var found := store.FindItemByName(name);
      if found.None? {
        return [];
      }
      var item := found.value;
      var e := AskToDownload(clients, item, urgent);
      if e.result.value.Some? {
        store.AddJob(NewJob(e.result.value.value, item.archiveId, item.name, item.region, item.vault, now));
      }
      return e.sent;
    }

    /** download: fetches the archive of the job with that name into the
        target file, but only when such a job exists and the service reports
        it succeeded; otherwise the file is left as it was. */
    method Download(name: string, existing: Bytes, chunkSize: int) returns (t: Transfer)
      ensures store.FindJobByName(name).None? ==> t == Transfer(Success(()), [], existing)
      ensures store.FindJobByName(name).Some? ==>
        var job := store.FindJobByName(name).value;
        var ready := IsReadyDownload(clients, job);
        && (ready.result.value != Some(true) ==> t == Transfer(Success(()), ready.sent, existing))
        && (ready.result.value == Some(true) ==>
              var d := DownloadSpec(clients, job, existing, chunkSize);
              t == Transfer(d.result, ready.sent + d.sent, d.output))
      ensures t.output != existing ==>
        store.FindJobByName(name).Some? &&
        GetJobStatus(clients, store.FindJobByName(name).value).result.value == Some(Succeeded)
    {
      var found := store.FindJobByName(name);
      if found.None? {
        return Transfer(Success(()), [], existing);
      }
      var job := found.value;
      var ready := IsReadyDownload(clients, job);
      if ready.result.value != Some(true) {
        return Transfer(Success(()), ready.sent, existing);
      }
      var d := GlacierManager.Download(clients, job, existing, chunkSize);
      return Transfer(d.result, ready.sent + d.sent, d.output);
    }

    /** configure: overwrites each setting whose argument is given and
        keeps the others. The inventory is not stored. */
    method Configure(awsKey: JString, awsSecret: JString, region: JString, vault: JString)
      modifies this
      ensures settings == Configured(old(settings), awsKey, awsSecret, region, vault)
    {
      if Given(awsKey) {
        settings := settings.(awsKey := awsKey);
      }
      if Given(awsSecret) {
        settings := settings.(awsSecret := awsSecret);
      }
      if Given(region) {
        settings := settings.(defaultRegion := region);
      }
      if Given(vault) {
        settings := settings.(defaultVault := vault);
      }
    }
  }
}
