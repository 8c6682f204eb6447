/**
 The configuration of one bot, as `BotBackup.__init__` reads it.

 The bot's own section and the global section are YAML mappings; a key the
 mapping does not hold is `None` here. Four keys of the bot's section are
 read with `[]`, so a missing one raises `KeyError`. The other bot keys fall
 back either to a derived default (`backup/{name}`, `backup-{name.lower()}`)
 or to the global section. That fallback is written `cfg.get(k, global_cfg[k])`,
 and Python evaluates the argument first: the global key is read, and must
 exist, even when the bot sets the key itself. `scopes` is read from the
 global section only.
 */
module Config {
  import opened Text
  import opened Wrappers

  /** The `timedelta(**backup_interval)` keyword arguments. */
  type Interval = map<string, int>

  /** The keys one entry of `bots` may hold. */
  datatype BotSection = BotSection(
    name: Option<string>,
    serviceAccountFile: Option<string>,
    parentFolderId: Option<string>,
    folderToZip: Option<string>,
    localBackupRoot: Option<string>,
    zipPrefix: Option<string>,
    backupInterval: Option<Interval>,
    localKeep: Option<int>,
    driveKeep: Option<int>,
    scopes: Option<seq<string>>,
    excludedExtensions: Option<seq<string>>,
    excludedFolders: Option<seq<string>>)

  /** The keys of the top-level mapping that a bot reads. */
  datatype GlobalSection = GlobalSection(
    backupInterval: Option<Interval>,
    localKeep: Option<int>,
    driveKeep: Option<int>,
    scopes: Option<seq<string>>,
    excludedExtensions: Option<seq<string>>,
    excludedFolders: Option<seq<string>>)

  /** The attributes a `BotBackup` ends up with. */
  datatype BotConfig = BotConfig(
    name: string,
    serviceAccountFile: string,
    parentFolderId: string,
    folderToZip: string,
    localBackupRoot: string,
    zipPrefix: string,
    backupInterval: Interval,
    localKeep: int,
    driveKeep: int,
    scopes: seq<string>,
    excludedExtensions: set<string>,
    excludedFolders: set<string>)

  /** A `KeyError` carries the name of the key that was missing. */
  datatype ConfigError = KeyError(key: string)

  /** `dict.get(key, default)` once `default` has been evaluated. */
  function GetOr<T>(o: Option<T>, default: T): (r: T)
    ensures o.Some? ==> r == o.value
    ensures o.None? ==> r == default
  {
    match o
    case Some(v) => v
    case None => default
  }

  /** `set(list)`. */
  function AsSet(items: seq<string>): (r: set<string>)
    ensures forall x :: x in r <==> x in items
  {
    set x | x in items
  }

  /** The construction of a `BotBackup`, up to (not including) `os.makedirs`.
      Keys are read in the order the assignments are written, so the error
      names the first missing key in that order. */
  function LoadBot(bot: BotSection, global: GlobalSection): (r: Result<BotConfig, ConfigError>)
    ensures r.Success? ==> forall k :: 0 <= k < |Presence(bot, global)| ==> Presence(bot, global)[k].1
    ensures r.Success? ==> global.scopes.Some? && r.value.scopes == global.scopes.value
  {
    if bot.name.None? then Failure(KeyError("name"))
    else if bot.serviceAccountFile.None? then Failure(KeyError("service_account_file"))
    else if bot.parentFolderId.None? then Failure(KeyError("parent_folder_id"))
    else if bot.folderToZip.None? then Failure(KeyError("folder_to_zip"))
    else if global.backupInterval.None? then Failure(KeyError("backup_interval"))
    else if global.localKeep.None? then Failure(KeyError("local_keep"))
    else if global.driveKeep.None? then Failure(KeyError("drive_keep"))
    else if global.scopes.None? then Failure(KeyError("scopes"))
    else if global.excludedExtensions.None? then Failure(KeyError("excluded_extensions"))
    else if global.excludedFolders.None? then Failure(KeyError("excluded_folders"))
    else
      var name := bot.name.value;
      Success(BotConfig(
        name,
        bot.serviceAccountFile.value,
        bot.parentFolderId.value,
        bot.folderToZip.value,
        GetOr(bot.localBackupRoot, "backup/" + name),
        GetOr(bot.zipPrefix, "backup-" + AsciiLower(name)),
        GetOr(bot.backupInterval, global.backupInterval.value),
        GetOr(bot.localKeep, global.localKeep.value),
        GetOr(bot.driveKeep, global.driveKeep.value),
        global.scopes.value,
        AsSet(GetOr(bot.excludedExtensions, global.excludedExtensions.value)),
        AsSet(GetOr(bot.excludedFolders, global.excludedFolders.value))))
  }

  // ---------------------------------------------------------------------
  // An independent account of which keys are required

  /** Every key that must be present, with whether it is, in reading order. */
  function Presence(bot: BotSection, global: GlobalSection): seq<(string, bool)>
  {
    [("name", bot.name.Some?),
     ("service_account_file", bot.serviceAccountFile.Some?),
     ("parent_folder_id", bot.parentFolderId.Some?),
     ("folder_to_zip", bot.folderToZip.Some?),
     ("backup_interval", global.backupInterval.Some?),
     ("local_keep", global.localKeep.Some?),
     ("drive_keep", global.driveKeep.Some?),
     ("scopes", global.scopes.Some?),
     ("excluded_extensions", global.excludedExtensions.Some?),
     ("excluded_folders", global.excludedFolders.Some?)]
  }

  /** The keys that are absent, in reading order. */
  function Absent(keys: seq<(string, bool)>): (r: seq<string>)
    ensures |r| <= |keys|
  {
    if |keys| == 0 then []
    else if keys[0].1 then Absent(keys[1..])
    else [keys[0].0] + Absent(keys[1..])
  }

  function MissingKeys(bot: BotSection, global: GlobalSection): seq<string>
  {
    Absent(Presence(bot, global))
  }

  /** `Absent` is empty exactly when every key is present, and otherwise
      starts with the first absent key. */
  lemma {:induction false} AbsentFirst(keys: seq<(string, bool)>)
    ensures |Absent(keys)| == 0 <==> forall i :: 0 <= i < |keys| ==> keys[i].1
    ensures |Absent(keys)| > 0 ==>
      exists i :: 0 <= i < |keys| && !keys[i].1 && Absent(keys)[0] == keys[i].0 && (forall j :: 0 <= j < i ==> keys[j].1)
  {
    if |keys| > 0 {
      AbsentFirst(keys[1..]);
      if keys[0].1 {
        if |Absent(keys)| > 0 {
          var i :| 0 <= i < |keys[1..]| && !keys[1..][i].1 && Absent(keys[1..])[0] == keys[1..][i].0
                   && (forall j :: 0 <= j < i ==> keys[1..][j].1);
          assert !keys[i + 1].1 && Absent(keys)[0] == keys[i + 1].0;
          assert forall j :: 0 <= j < i + 1 ==> keys[j].1 by {
            forall j | 0 <= j < i + 1 ensures keys[j].1 {
              if j > 0 { assert keys[j] == keys[1..][j - 1]; }
            }
          }
        }
        if |Absent(keys)| == 0 {
          forall i | 0 <= i < |keys| ensures keys[i].1 {
            if i > 0 { assert keys[i] == keys[1..][i - 1]; }
          }
        }
      }
    }
  }

  /** Loading fails exactly when a required key is missing, and it reports
      the first one in reading order. */
  lemma LoadBotFailsOnFirstMissing(bot: BotSection, global: GlobalSection)
    ensures LoadBot(bot, global).Failure? <==> |MissingKeys(bot, global)| > 0
    ensures LoadBot(bot, global).Failure? ==>
      LoadBot(bot, global).error == KeyError(MissingKeys(bot, global)[0])
  {
    var keys := Presence(bot, global);
    AbsentFirst(keys);
    if |Absent(keys)| > 0 {
      var i :| 0 <= i < |keys| && !keys[i].1 && Absent(keys)[0] == keys[i].0 && (forall j :: 0 <= j < i ==> keys[j].1);
      assert i < 10;
      assert i > 0 ==> keys[0].1;
      assert i > 1 ==> keys[1].1;
      assert i > 2 ==> keys[2].1;
      assert i > 3 ==> keys[3].1;
      assert i > 4 ==> keys[4].1;
      assert i > 5 ==> keys[5].1;
      assert i > 6 ==> keys[6].1;
      assert i > 7 ==> keys[7].1;
      assert i > 8 ==> keys[8].1;
    } else {
      assert keys[0].1 && keys[1].1 && keys[2].1 && keys[3].1 && keys[4].1;
      assert keys[5].1 && keys[6].1 && keys[7].1 && keys[8].1 && keys[9].1;
    }
  }

  /** Each global key the bot falls back to must exist, whether or not the
      bot overrides it: removing one makes loading fail whatever the bot says. */
  lemma GlobalKeysRequired(bot: BotSection, global: GlobalSection)
    requires global.backupInterval.None? || global.localKeep.None? || global.driveKeep.None?
          || global.scopes.None? || global.excludedExtensions.None? || global.excludedFolders.None?
    ensures LoadBot(bot, global).Failure?
    ensures bot.name.Some? && bot.serviceAccountFile.Some? && bot.parentFolderId.Some? && bot.folderToZip.Some?
      ==> LoadBot(bot, global).error.key in
            ["backup_interval", "local_keep", "drive_keep", "scopes", "excluded_extensions", "excluded_folders"]
  {
  }

  /** When every required key is present, each setting is the bot's own
      value when it has one, and otherwise the global value or the derived
      default; the exclusion lists become sets with the same members. */
  lemma LoadBotFallbacks(bot: BotSection, global: GlobalSection)
    requires |MissingKeys(bot, global)| == 0
    ensures LoadBot(bot, global).Success?
    ensures var c := LoadBot(bot, global).value;
      && c.name == bot.name.value
      && c.serviceAccountFile == bot.serviceAccountFile.value
      && c.parentFolderId == bot.parentFolderId.value
      && c.folderToZip == bot.folderToZip.value
      && (bot.localBackupRoot.None? ==> c.localBackupRoot == "backup/" + c.name)
      && (bot.localBackupRoot.Some? ==> c.localBackupRoot == bot.localBackupRoot.value)
      && (bot.zipPrefix.None? ==> c.zipPrefix == "backup-" + AsciiLower(c.name))
      && (bot.zipPrefix.Some? ==> c.zipPrefix == bot.zipPrefix.value)
      && c.backupInterval == (if bot.backupInterval.Some? then bot.backupInterval.value else global.backupInterval.value)
      && c.localKeep == (if bot.localKeep.Some? then bot.localKeep.value else global.localKeep.value)
      && c.driveKeep == (if bot.driveKeep.Some? then bot.driveKeep.value else global.driveKeep.value)
      && c.scopes == global.scopes.value
      && (forall x :: x in c.excludedExtensions <==>
            x in (if bot.excludedExtensions.Some? then bot.excludedExtensions.value else global.excludedExtensions.value))
      && (forall x :: x in c.excludedFolders <==>
            x in (if bot.excludedFolders.Some? then bot.excludedFolders.value else global.excludedFolders.value))
  {
    LoadBotFailsOnFirstMissing(bot, global);
  }

  /** A `scopes` key in the bot's own section changes nothing. */
  lemma BotScopesIgnored(bot: BotSection, global: GlobalSection, scopes: Option<seq<string>>)
    ensures LoadBot(bot.(scopes := scopes), global) == LoadBot(bot, global)
  {
  }
}
