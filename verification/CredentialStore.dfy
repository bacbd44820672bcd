/** The credentials file: encrypted or plain, with the secret found where the settings say. */
module CredentialStores {
  import opened Options
  import opened JsonValues
  import opened Credentials
  import E = Encodings
  import opened Text

  type byte = E.byte

  datatype SecretSetting = Unset | Disabled | Secret(s: string)

  /** The credentials file, and the runtime settings files of a directory, newest name first. */
  datatype FileName = CredFile | ConfigFile(dir: string, index: nat)

  type Disk = map<FileName, seq<byte>>

  datatype Error = WrongSecret | MissingSecret | EncryptedButDisabled | Malformed

  datatype Result<T> = Ok(value: T) | Err(error: Error)

  // ---- Credentials as JSON --------------------------------------------------

  function ToJson(c: Creds): Json {
    Obj(map id | id in c :: Obj(c[id]))
  }

  /** Entries that are not objects are left out. */
  function FromFields(fields: Fields): Creds {
    map id | id in fields && fields[id].Obj? :: fields[id].fields
  }

  lemma FromToJson(c: Creds)
    ensures FromFields(ToJson(c).fields) == c
  {
  }

  lemma FromFieldsIff(fields: Fields, id: string, own: Fields)
    ensures id in FromFields(fields) && FromFields(fields)[id] == own <==> id in fields && fields[id] == Obj(own)
  {
  }

  // ---- Encryption -----------------------------------------------------------

  /** How JSON is written and read as bytes, and the cipher's keystream for a secret and a start
      value. */
  datatype Codec = Codec(show: Json -> seq<byte>, showPretty: Json -> seq<byte>, parse: seq<byte> -> Option<Json>,
                         isBlank: seq<byte> -> bool, keystream: (string, seq<byte>, nat) -> byte)
  {
    /** What is written can be read, and no JSON text is blank. */
    ghost predicate Lawful() {
      && (forall j :: parse(show(j)) == Some(j) && parse(showPretty(j)) == Some(j))
      && (forall b | isBlank(b) :: parse(b) == None)
    }

    function Encrypt(secret: string, plaintext: seq<byte>, iv: seq<byte>): string {
      E.HexEncode(iv) + E.Base64Encode(E.ApplyKeystream(plaintext, (i: nat) => keystream(secret, iv, i)))
    }

    /** Takes the text apart and reads the JSON under the keystream; none if any step does not go through. */
    function Decrypt(secret: string, encrypted: string): Option<Fields> {
      if |encrypted| < 32 then None
      else
        var iv := E.HexDecode(encrypted[..32]);
        if iv.None? then None
        else
          var data := E.Base64Decode(Trim(encrypted[32..]));
          if data.None? then None
          else
            match parse(E.ApplyKeystream(data.value, (i: nat) => keystream(secret, iv.value, i)))
            case Some(Obj(fields)) => Some(fields)
            case _ => None
    }

    function EncryptedDocument(secret: string, plaintext: seq<byte>, iv: seq<byte>): seq<byte> {
      showPretty(Obj(map["$" := Str(Encrypt(secret, plaintext, iv))]))
    }
  }

  lemma TrimPrintable(s: string)
    requires forall c <- s :: !IsWhitespace(c)
    ensures Trim(s) == s
  {
    if s != "" { assert s[0] in s && s[|s| - 1] in s; }
  }

  /** Decrypting with the same secret gives back what was encrypted. */
  lemma DecryptEncrypt(codec: Codec, secret: string, plaintext: seq<byte>, iv: seq<byte>)
    requires |iv| == 16
    ensures codec.Decrypt(secret, codec.Encrypt(secret, plaintext, iv)) ==
            match codec.parse(plaintext) { case Some(Obj(fields)) => Some(fields) case _ => None }
  {
    hide E.HexDecode, E.Base64Encode, E.Base64Decode, E.ApplyKeystream, Trim;
    var stream := (i: nat) => codec.keystream(secret, iv, i);
    var data := E.ApplyKeystream(plaintext, stream);
    var encrypted := codec.Encrypt(secret, plaintext, iv);
    assert encrypted[..32] == E.HexEncode(iv) && encrypted[32..] == E.Base64Encode(data);
    E.HexRoundTrip(iv);
    E.Base64RoundTrip(data);
    E.Base64Printable(data);
    TrimPrintable(E.Base64Encode(data));
    E.KeystreamTwice(plaintext, stream);
  }

  /** A text is decrypted exactly when it is a start value of 16 bytes in hexadecimal and, but for white
      space around it, the base64 of data that is an object's JSON under the keystream. */
  lemma DecryptIff(codec: Codec, secret: string, encrypted: string, fields: Fields)
    ensures codec.Decrypt(secret, encrypted) == Some(fields) <==>
              exists iv: seq<byte>, data: seq<byte> :: Carries(codec, secret, encrypted, iv, data, fields)
  {
    hide E.HexDecode, E.Base64Encode, E.Base64Decode, E.ApplyKeystream, Trim;
    if codec.Decrypt(secret, encrypted) == Some(fields) {
      var iv, data := E.HexDecode(encrypted[..32]).value, E.Base64Decode(Trim(encrypted[32..])).value;
      E.Base64Canonical(Trim(encrypted[32..]), data);
      assert Carries(codec, secret, encrypted, iv, data, fields);
    }
    if iv: seq<byte>, data: seq<byte> :| Carries(codec, secret, encrypted, iv, data, fields) {
      E.Base64Canonical(Trim(encrypted[32..]), data);
    }
  }

  ghost predicate Carries(codec: Codec, secret: string, encrypted: string, iv: seq<byte>, data: seq<byte>,
                          fields: Fields) {
    && |encrypted| >= 32 && |iv| == 16 && E.HexDecode(encrypted[..32]) == Some(iv)
    && Trim(encrypted[32..]) == E.Base64Encode(data)
    && codec.parse(E.ApplyKeystream(data, (i: nat) => codec.keystream(secret, iv, i))) == Some(Obj(fields))
  }

  /** The start value is at the front. */
  lemma EncryptedFront(codec: Codec, secret: string, plaintext: seq<byte>, iv: seq<byte>)
    requires |iv| == 16
    ensures var text := codec.Encrypt(secret, plaintext, iv); |text| >= 32 && E.HexDecode(text[..32]) == Some(iv)
  {
    E.HexRoundTrip(iv);
    assert codec.Encrypt(secret, plaintext, iv)[..32] == E.HexEncode(iv);
  }

  // ---- Secrets --------------------------------------------------------------

  function SecretIn(codec: Codec, disk: Disk, file: FileName): Option<string> {
    if file !in disk then None
    else
      match codec.parse(disk[file])
      case Some(Obj(fields)) =>
        if "_credentialSecret" in fields && fields["_credentialSecret"].Str? && fields["_credentialSecret"].s != ""
        then Some(fields["_credentialSecret"].s) else None
      case _ => None
  }

  lemma SecretInIff(codec: Codec, disk: Disk, file: FileName, secret: string)
    ensures SecretIn(codec, disk, file) == Some(secret) <==>
              && file in disk && secret != ""
              && exists fields :: codec.parse(disk[file]) == Some(Obj(fields))
                                  && "_credentialSecret" in fields && fields["_credentialSecret"] == Str(secret)
  {
  }

  /** The first secret found: directory by directory, the newer file name first. */
  function RuntimeSecret(codec: Codec, disk: Disk, dirs: seq<string>): Option<string> {
    if dirs == [] then None
    else if SecretIn(codec, disk, ConfigFile(dirs[0], 0)).Some? then SecretIn(codec, disk, ConfigFile(dirs[0], 0))
    else if SecretIn(codec, disk, ConfigFile(dirs[0], 1)).Some? then SecretIn(codec, disk, ConfigFile(dirs[0], 1))
    else RuntimeSecret(codec, disk, dirs[1..])
  }

  /** File `f` of directory `d` has a secret, and none before it has: no file of an earlier directory, and
      not the newer file of its own. */
  ghost predicate FirstSecret(codec: Codec, disk: Disk, dirs: seq<string>, d: nat, f: nat) {
    && d < |dirs| && f < 2 && SecretIn(codec, disk, ConfigFile(dirs[d], f)).Some?
    && (forall e | 0 <= e < d :: NoSecretIn(codec, disk, dirs[e]))
    && (f == 1 ==> SecretIn(codec, disk, ConfigFile(dirs[d], 0)).None?)
  }

  ghost predicate NoSecretIn(codec: Codec, disk: Disk, dir: string) {
    SecretIn(codec, disk, ConfigFile(dir, 0)).None? && SecretIn(codec, disk, ConfigFile(dir, 1)).None?
  }

  /** The runtime secret is that of the first directory and file that has one, */
  lemma {:induction false} RuntimeSecretFirst(codec: Codec, disk: Disk, dirs: seq<string>, d: nat, f: nat)
    requires FirstSecret(codec, disk, dirs, d, f)
    ensures RuntimeSecret(codec, disk, dirs) == SecretIn(codec, disk, ConfigFile(dirs[d], f))
  {
    hide SecretIn;
    if d > 0 {
      assert NoSecretIn(codec, disk, dirs[0]);
      forall e | 0 <= e < d - 1 ensures NoSecretIn(codec, disk, dirs[1..][e]) {
        assert NoSecretIn(codec, disk, dirs[e + 1]);
      }
      RuntimeSecretFirst(codec, disk, dirs[1..], d - 1, f);
    }
  }

  /** and there is none exactly when no file of any directory has one. */
  lemma {:induction false} RuntimeSecretNone(codec: Codec, disk: Disk, dirs: seq<string>)
    ensures RuntimeSecret(codec, disk, dirs).None? <==> forall dir <- dirs :: NoSecretIn(codec, disk, dir)
  {
    hide SecretIn;
    if dirs != [] {
      RuntimeSecretNone(codec, disk, dirs[1..]);
      assert dirs == [dirs[0]] + dirs[1..];
      assert forall dir :: dir in dirs <==> dir == dirs[0] || dir in dirs[1..];
      assert RuntimeSecret(codec, disk, dirs).None? <==>
             NoSecretIn(codec, disk, dirs[0]) && RuntimeSecret(codec, disk, dirs[1..]).None?;
    }
  }

  /** The configured secret first, then the runtime one if it is another. */
  function Candidates(setting: SecretSetting, runtime: Option<string>): seq<string> {
    (if setting.Secret? then [setting.s] else [])
    + (if runtime.Some? && !(setting.Secret? && setting.s == runtime.value) then [runtime.value] else [])
  }

  function DecryptWithCandidates(codec: Codec, setting: SecretSetting, candidates: seq<string>,
                                 encrypted: string): Result<Fields> {
    if candidates == [] then Err(if setting.Disabled? then EncryptedButDisabled else MissingSecret)
    else if codec.Decrypt(candidates[0], encrypted).Some? then Ok(codec.Decrypt(candidates[0], encrypted).value)
    else if |candidates| > 1 && codec.Decrypt(candidates[1], encrypted).Some? then
      Ok(codec.Decrypt(candidates[1], encrypted).value)
    else Err(WrongSecret)
  }

  /** Without a file, or with nothing in it, the store is empty. */
  function LoadFrom(codec: Codec, setting: SecretSetting, dirs: seq<string>, disk: Disk): Result<Creds> {
    if CredFile !in disk || codec.isBlank(disk[CredFile]) then Ok(map[])
    else
      match codec.parse(disk[CredFile])
      case Some(Obj(root)) =>
        if root.Keys == {"$"} && root["$"].Str? then
          var fields := DecryptWithCandidates(codec, setting, Candidates(setting, RuntimeSecret(codec, disk, dirs)),
              root["$"].s);
          if fields.Ok? then Ok(FromFields(fields.value)) else Err(fields.error)
        else Ok(FromFields(root))
      case _ => Err(Malformed)
  }

  /** What loading makes of each kind of file that is not encrypted. */
  lemma LoadCases(codec: Codec, setting: SecretSetting, dirs: seq<string>, disk: Disk)
    ensures CredFile !in disk ==> LoadFrom(codec, setting, dirs, disk) == Ok(map[])
    ensures CredFile in disk && codec.isBlank(disk[CredFile]) ==> LoadFrom(codec, setting, dirs, disk) == Ok(map[])
    ensures CredFile in disk && !codec.isBlank(disk[CredFile]) ==>
              var json := codec.parse(disk[CredFile]);
              && (json.None? || !json.value.Obj? ==> LoadFrom(codec, setting, dirs, disk) == Err(Malformed))
              && (json.Some? && json.value.Obj? && !EncryptedRoot(json.value.fields) ==>
                    LoadFrom(codec, setting, dirs, disk) == Ok(FromFields(json.value.fields)))
  {
  }

  /** An encrypted file is an object whose one field is a text under `$`. */
  ghost predicate EncryptedRoot(root: Fields) {
    exists text :: root == map["$" := Str(text)]
  }

  /** The credentials file holds this encrypted text. */
  ghost predicate HoldsText(codec: Codec, disk: Disk, text: string) {
    CredFile in disk && !codec.isBlank(disk[CredFile])
        && codec.parse(disk[CredFile]) == Some(Obj(map["$" := Str(text)]))
  }

  ghost predicate Opens(codec: Codec, secret: Option<string>, text: string) {
    secret.Some? && codec.Decrypt(secret.value, text).Some?
  }

  /** What loading makes of an encrypted file: the configured secret opens it, or else the runtime secret
      does; if there is a secret but none opens it, it is the wrong one; and without any the setting
      decides the error. */
  lemma LoadEncrypted(codec: Codec, setting: SecretSetting, dirs: seq<string>, disk: Disk, text: string)
    requires HoldsText(codec, disk, text)
    ensures var configured := if setting.Secret? then Some(setting.s) else None;
            var runtime := RuntimeSecret(codec, disk, dirs);
            var r := LoadFrom(codec, setting, dirs, disk);
            && (Opens(codec, configured, text) ==> r == Ok(FromFields(codec.Decrypt(configured.value, text).value)))
            && (!Opens(codec, configured, text) && Opens(codec, runtime, text) ==>
                  r == Ok(FromFields(codec.Decrypt(runtime.value, text).value)))
            && (r == Err(WrongSecret) <==>
                  && (configured.Some? || runtime.Some?)
                  && !Opens(codec, configured, text) && !Opens(codec, runtime, text))
            && (r == Err(EncryptedButDisabled) <==> configured.None? && runtime.None? && setting.Disabled?)
            && (r == Err(MissingSecret) <==> configured.None? && runtime.None? && setting.Unset?)
  {
    hide Codec.Decrypt, RuntimeSecret, FromFields;
    assert map["$" := Str(text)].Keys == {"$"};
  }

  /** A file encrypted under the runtime secret loads back under every setting whose own secret does not
      open it. */
  lemma RuntimeSecretLoads(codec: Codec, setting: SecretSetting, dirs: seq<string>, disk: Disk, creds: Creds,
                           key: string, iv: seq<byte>)
    requires codec.Lawful() && |iv| == 16 && RuntimeSecret(codec, disk, dirs) == Some(key)
    requires setting.Secret? ==> !Opens(codec, Some(setting.s), codec.Encrypt(key, codec.show(ToJson(creds)), iv))
    ensures LoadFrom(codec, setting, dirs,
              disk[CredFile := codec.EncryptedDocument(key, codec.show(ToJson(creds)), iv)]) == Ok(creds)
  {
    FromToJson(creds);
    var plaintext := codec.show(ToJson(creds));
    var text, content := codec.Encrypt(key, plaintext, iv), codec.EncryptedDocument(key, plaintext, iv);
    DecryptEncrypt(codec, key, plaintext, iv);
    SameRuntimeSecret(codec, disk, dirs, content);
    assert codec.parse(content) == Some(Obj(map["$" := Str(text)]));
    var disk' := disk[CredFile := content];
    hide Codec.Encrypt, Codec.Decrypt, Codec.EncryptedDocument, RuntimeSecret, FromFields, LoadFrom;
    LoadEncrypted(codec, setting, dirs, disk', text);
  }

  /** A plain file loads back, even one whose only node id is `$`. */
  lemma PlainLoads(codec: Codec, setting: SecretSetting, dirs: seq<string>, disk: Disk, creds: Creds)
    requires codec.Lawful()
    ensures LoadFrom(codec, setting, dirs, disk[CredFile := codec.showPretty(ToJson(creds))]) == Ok(creds)
  {
    FromToJson(creds);
    assert codec.parse(codec.showPretty(ToJson(creds))) == Some(ToJson(creds));
  }

  /** An encrypted file loads back when its secret is the first one tried. */
  lemma EncryptedLoads(codec: Codec, setting: SecretSetting, dirs: seq<string>, disk: Disk, creds: Creds, key: string,
                       iv: seq<byte>)
    requires codec.Lawful() && |iv| == 16
    requires var candidates := Candidates(setting, RuntimeSecret(codec, disk, dirs));
             candidates != [] && candidates[0] == key
    ensures LoadFrom(codec, setting, dirs,
              disk[CredFile := codec.EncryptedDocument(key, codec.show(ToJson(creds)), iv)]) == Ok(creds)
  {
    FromToJson(creds);
    var plaintext := codec.show(ToJson(creds));
    var root := map["$" := Str(codec.Encrypt(key, plaintext, iv))];
    var content := codec.EncryptedDocument(key, plaintext, iv);
    DecryptEncrypt(codec, key, plaintext, iv);
    SameRuntimeSecret(codec, disk, dirs, content);
    assert codec.parse(content) == Some(Obj(root));
    assert root.Keys == {"$"};
  }

  class CredentialStore {
    const secret: SecretSetting
    const configDirs: seq<string>
    const codec: Codec
    var disk: Disk

    /** A store for a flows file always knows at least that file's directory. */
    constructor (secret: SecretSetting, configDirs: seq<string>, codec: Codec, disk: Disk)
      requires configDirs != []
      ensures this.secret == secret && this.configDirs == configDirs && this.codec == codec && this.disk == disk
    {
      this.secret, this.configDirs, this.codec, this.disk := secret, configDirs, codec, disk;
    }

    function Load(): Result<Creds>
      reads this
    {
      LoadFrom(codec, secret, configDirs, disk)
    }

    /** The secret new files are encrypted under: the configured one, or else the runtime one. */
    ghost function KeyInUse(): Option<string>
      reads this
    {
      if secret.Secret? then Some(secret.s) else RuntimeSecret(codec, disk, configDirs)
    }

    /** A new secret goes into the newest settings file of the first directory, whose other settings
        stay. */
    method GenerateRuntimeSecret(random: seq<byte>) returns (generated: string)
      requires codec.Lawful() && configDirs != [] && random != []
      modifies this`disk
      ensures disk.Keys == old(disk.Keys) + {ConfigFile(configDirs[0], 0)}
      ensures forall f <- old(disk) :: f != ConfigFile(configDirs[0], 0) ==> disk[f] == old(disk)[f]
      ensures RuntimeSecret(codec, disk, configDirs) == Some(generated)
    {
      generated := E.HexEncode(random);
      var file := ConfigFile(configDirs[0], 0);
      var settings := map[];
      if file in disk {
        match codec.parse(disk[file])
        case Some(Obj(fields)) => settings := fields;
        case _ =>
      }
      settings := settings["_credentialSecret" := Str(generated)];
      disk := disk[file := codec.showPretty(Obj(settings))];
    }

    /** `random` and `iv` are the random bytes used if a secret or a start value is needed. Loading
        afterwards gives back exactly what was saved. */
    method Save(creds: Creds, random: seq<byte>, iv: seq<byte>)
      requires codec.Lawful() && configDirs != [] && random != [] && |iv| == 16
      modifies this`disk
      ensures Load() == Ok(creds)
      ensures creds == map[] && CredFile !in old(disk) ==> disk == old(disk)
      ensures creds != map[] || CredFile in old(disk) ==>
                && CredFile in disk
                && if secret.Disabled? then codec.parse(disk[CredFile]) == Some(ToJson(creds))
                   else exists text :: HoldsText(codec, disk, text) && Opens(codec, KeyInUse(), text)
      ensures forall f <- old(disk) :: f in disk
                && (f == CredFile || f == ConfigFile(configDirs[0], 0) || disk[f] == old(disk)[f])
    {
      if creds == map[] && CredFile !in disk {
        return;
      }
      if secret.Disabled? {
        PlainLoads(codec, secret, configDirs, disk, creds);
        disk := disk[CredFile := codec.showPretty(ToJson(creds))];
        return;
      }
      hide LoadFrom;
      var key;
      if secret.Secret? {
        key := secret.s;
      } else if RuntimeSecret(codec, disk, configDirs).Some? {
        key := RuntimeSecret(codec, disk, configDirs).value;
      } else {
        key := GenerateRuntimeSecret(random);
      }
      EncryptedLoads(codec, secret, configDirs, disk, creds, key, iv);
      SavedText(codec, disk, configDirs, creds, key, iv);
      disk := disk[CredFile := codec.EncryptedDocument(key, codec.show(ToJson(creds)), iv)];
    }

    /** A deploy: reads the store, moves the credentials out of the flows, and saves only a change.
        When the store cannot be read, nothing is touched. */
    method ExtractForDeploy(flows: seq<Json>, current: seq<Json>, random: seq<byte>, iv: seq<byte>)
      returns (r: Result<seq<Json>>)
      requires codec.Lawful() && configDirs != [] && random != [] && |iv| == 16
      modifies this`disk
      ensures r.Ok? <==> old(Load()).Ok?
      ensures r.Err? ==> disk == old(disk)
      ensures r.Ok? ==>
                && |r.value| == |flows| && (forall i | 0 <= i < |flows| :: r.value[i] == Stripped(flows[i]))
                && Load().Ok? && NoEmpty(Load().value)
                && (forall id ::
                    FieldsAt(Load().value, id) == Deployed(FieldsAt(old(Load()).value, id), current, flows, id))
                && (Load() == old(Load()) ==> disk == old(disk))
    {
      var stored := Load();
      if stored.Err? {
        return Err(stored.error);
      }
      var flows', creds, changed := PrepareDeploy(stored.value, flows, current);
      if changed {
        Save(creds, random, iv);
      }
      return Ok(flows');
    }

    /** Two deploys, the second of which keeps the nodes and sends only untouched passwords: it leaves
        every file as the first one did. */
    method DeployTwice(flows: seq<Json>, current: seq<Json>, again: seq<Json>, random: seq<byte>, iv: seq<byte>)
      returns (first: Result<seq<Json>>, second: Result<seq<Json>>, ghost between: Disk)
      requires codec.Lawful() && configDirs != [] && random != [] && |iv| == 16
      requires Load().Ok? && IdsIn(flows) <= IdsIn(again) && OnlyUnchanged(again)
      modifies this`disk
      ensures first.Ok? && second.Ok? && disk == between
      ensures LoadFrom(codec, secret, configDirs, between).Ok?
                && NoEmpty(LoadFrom(codec, secret, configDirs, between).value)
      ensures forall id :: FieldsAt(LoadFrom(codec, secret, configDirs, between).value, id)
                           == Deployed(FieldsAt(old(Load()).value, id), current, flows, id)
    {
      hide LoadFrom, Deployed, Stripped, NoEmpty, IdsIn, OnlyUnchanged;
      ghost var stored := Load().value;
      first := ExtractForDeploy(flows, current, random, iv);
      between := disk;
      ghost var creds := Load().value;
      DeploySettles(stored, current, flows, first.value, creds);
      second := ExtractForDeploy(again, first.value, random, iv);
      RepeatDeployWritesNothing(creds, first.value, again, Load().value);
    }
  }

  /** The file as it is written. */
  lemma SavedText(codec: Codec, disk: Disk, dirs: seq<string>, creds: Creds, key: string, iv: seq<byte>)
    requires codec.Lawful() && |iv| == 16
    ensures var plaintext := codec.show(ToJson(creds));
            var text, disk' := codec.Encrypt(key, plaintext, iv),
                disk[CredFile := codec.EncryptedDocument(key, plaintext, iv)];
            && HoldsText(codec, disk', text) && Opens(codec, Some(key), text)
            && RuntimeSecret(codec, disk', dirs) == RuntimeSecret(codec, disk, dirs)
  {
    var plaintext := codec.show(ToJson(creds));
    DecryptEncrypt(codec, key, plaintext, iv);
    SameRuntimeSecret(codec, disk, dirs, codec.EncryptedDocument(key, plaintext, iv));
  }

  /** Writing the credentials file leaves the secrets where they are. */
  lemma {:induction false} SameRuntimeSecret(codec: Codec, disk: Disk, dirs: seq<string>, content: seq<byte>)
    ensures RuntimeSecret(codec, disk[CredFile := content], dirs) == RuntimeSecret(codec, disk, dirs)
  {
    if dirs != [] {
      SameRuntimeSecret(codec, disk, dirs[1..], content);
    }
  }
}
