/** The configuration map handed to the Kafka admin client, built in
    cmd/main.go from the process environment: every variable whose name,
    upper-cased, starts with `KAFKA_` contributes one entry whose key is the
    rest of the name, lower-cased, with `_` turned into `.`, and whose value
    is the variable's value as it stands.

    The environment is the snapshot `os.Environ` returns, one `NAME=value`
    string per variable, in order; `os.Getenv` is modelled as a lookup in
    that same snapshot. */
module EnvConfig {
  import opened GoStrings

  const EnvPrefix := "KAFKA_"

  /** The name of an environment entry, `strings.Split(entry, "=")[0]`: the
      text before the first `=`, or the whole entry when it has none. */
  function EnvName(entry: string): (name: string)
    ensures HasPrefix(entry, name) && '=' !in name
    ensures |name| < |entry| ==> entry[|name|] == '='
    ensures '=' !in entry ==> name == entry
  {
    SplitHead(entry, '=');
    Split(entry, '=')[0]
  }

  /** The value of an environment entry: the text after its first `=`. */
  function EnvValue(entry: string): (value: string)
    ensures '=' in entry ==> EnvName(entry) + "=" + value == entry
  {
    var n := |EnvName(entry)|;
    if n < |entry| then entry[n + 1..] else ""
  }

  /** An entry written as `name=value`, with no `=` in the name, has that
      name and that value, whatever `=` the value holds. */
  lemma EntryParts(name: string, value: string)
    requires '=' !in name
    ensures EnvName(name + "=" + value) == name
    ensures EnvValue(name + "=" + value) == value
  {
    SplitAfterPiece(name, value, '=');
    assert name + "=" + value == name + ['='] + value;
  }

  /** The entry assigns a value to the variable `name`. */
  predicate Defines(entry: string, name: string)
  {
    '=' in entry && EnvName(entry) == name
  }

  /** `os.Getenv(name)`: the value given by the first entry that defines
      `name`, or "" when none does. Go answers "" for the empty name
      whatever the environment holds; that case is not modelled, as every
      name the program looks up starts with `KAFKA_`. */
  function Getenv(environ: seq<string>, name: string): (value: string)
    ensures value != "" ==>
              exists i :: 0 <= i < |environ| && Defines(environ[i], name) && value == EnvValue(environ[i])
    ensures (forall i :: 0 <= i < |environ| ==> !Defines(environ[i], name)) ==> value == ""
    decreases |environ|
  {
    if |environ| == 0 then ""
    else if Defines(environ[0], name) then EnvValue(environ[0])
    else Getenv(environ[1..], name)
  }

  /** The variable feeds the configuration: its upper-cased name starts
      with `KAFKA_`. */
  predicate IsKafkaName(name: string)
  {
    HasPrefix(ToUpper(name), EnvPrefix)
  }

  /** The configuration key of a variable name: prefix stripped from the
      upper-cased name, lower-cased, `_` replaced by `.`. A key never holds
      `_` nor an upper-case ASCII letter. */
  function ConfigKey(name: string): (key: string)
    ensures '_' !in key
    ensures forall i :: 0 <= i < |key| ==> !IsUpperAscii(key[i])
    ensures IsKafkaName(name) ==> |key| == |name| - |EnvPrefix|
  {
    ReplaceAll(ToLower(TrimPrefix(ToUpper(name), EnvPrefix)), '_', '.')
  }

  /** The prefix test ignores case: it looks only at the first six
      characters of the name, upper-cased, so a name and its lower-cased
      form are read alike. */
  lemma KafkaNameIgnoresCase(name: string)
    ensures IsKafkaName(name) <==> |name| >= |EnvPrefix| && ToUpper(name[..|EnvPrefix|]) == EnvPrefix
    ensures IsKafkaName(name) <==> IsKafkaName(ToLower(name))
  {
    assert ToUpper(ToLower(name)) == ToUpper(name);
  }

  /** The key of a `KAFKA_` variable is the rest of its name as written,
      lower-cased, with every `_` turned into `.`; with the ASCII case
      mapping, upper-casing before the prefix test leaves no trace in it. */
  lemma ConfigKeyOfKafkaName(name: string)
    requires IsKafkaName(name)
    ensures ConfigKey(name) == ReplaceAll(ToLower(name[|EnvPrefix|..]), '_', '.')
  {
  }

  /** The map after the loop has visited the first `n` entries. */
  function ConfigAfter(environ: seq<string>, n: nat): map<string, string>
    requires n <= |environ|
    decreases n
  {
    if n == 0 then map[]
    else
      var config := ConfigAfter(environ, n - 1);
      var envName := EnvName(environ[n - 1]);
      if IsKafkaName(envName) then config[ConfigKey(envName) := Getenv(environ, envName)]
      else config
  }

  /** The map after the whole environment has been visited. */
  function ConfigFromEnv(environ: seq<string>): map<string, string>
  {
    ConfigAfter(environ, |environ|)
  }

  /** Entry `i` is a `KAFKA_` variable that translates to `key`. */
  predicate WritesKey(environ: seq<string>, i: nat, key: string)
    requires i < |environ|
  {
    IsKafkaName(EnvName(environ[i])) && ConfigKey(EnvName(environ[i])) == key
  }

  /** The keys of the map are exactly the translations of the `KAFKA_`
      variables among the first `n` entries: every other entry adds
      nothing. */
  lemma {:induction false} ConfigKeys(environ: seq<string>, n: nat, key: string)
    requires n <= |environ|
    ensures key in ConfigAfter(environ, n) <==> exists i :: 0 <= i < n && WritesKey(environ, i, key)
    decreases n
  {
    if n > 0 {
      ConfigKeys(environ, n - 1, key);
      var before := ConfigAfter(environ, n - 1);
      if WritesKey(environ, n - 1, key) {
        assert key in ConfigAfter(environ, n);
      } else {
        assert key in ConfigAfter(environ, n) <==> key in before;
        if key in before {
          var i :| 0 <= i < n - 1 && WritesKey(environ, i, key);
        }
      }
    }
  }

  /** Every key of the map is a dotted lower-case key: no `_` and no
      upper-case ASCII letter. */
  lemma ConfigKeysAreDotted(environ: seq<string>)
    ensures forall key :: key in ConfigFromEnv(environ) ==>
              '_' !in key && forall c :: c in key ==> !IsUpperAscii(c)
  {
    forall key | key in ConfigFromEnv(environ)
      ensures '_' !in key && forall c :: c in key ==> !IsUpperAscii(c)
    {
      ConfigKeys(environ, |environ|, key);
    }
  }

  /** When several entries translate to one key, the last of them decides
      its value: the map holds what `os.Getenv` gives for that entry's
      name. */
  lemma {:induction false} LastWriterWins(environ: seq<string>, n: nat, i: nat)
    requires i < n <= |environ|
    requires IsKafkaName(EnvName(environ[i]))
    requires forall j :: i < j < n ==> !WritesKey(environ, j, ConfigKey(EnvName(environ[i])))
    ensures ConfigKey(EnvName(environ[i])) in ConfigAfter(environ, n)
    ensures ConfigAfter(environ, n)[ConfigKey(EnvName(environ[i]))] == Getenv(environ, EnvName(environ[i]))
    decreases n
  {
    if i < n - 1 {
      LastWriterWins(environ, n - 1, i);
      assert !WritesKey(environ, n - 1, ConfigKey(EnvName(environ[i])));
    }
  }

  /** `os.Getenv` returns the value written in an entry when no earlier
      entry defines the same name (the Go runtime keeps only the first
      definition of a name, so in a real snapshot this always holds). */
  lemma {:induction false} GetenvOfEntry(environ: seq<string>, i: nat)
    requires i < |environ| && '=' in environ[i]
    requires forall j :: 0 <= j < i ==> !Defines(environ[j], EnvName(environ[i]))
    ensures Getenv(environ, EnvName(environ[i])) == EnvValue(environ[i])
    decreases i
  {
    if i > 0 {
      assert !Defines(environ[0], EnvName(environ[i]));
      assert environ[1..][i - 1] == environ[i];
      GetenvOfEntry(environ[1..], i - 1);
    }
  }

  /** The value stored for a key is, character for character, the value of
      the last `KAFKA_` entry translating to that key. */
  lemma ConfigValueVerbatim(environ: seq<string>, i: nat)
    requires i < |environ| && '=' in environ[i]
    requires IsKafkaName(EnvName(environ[i]))
    requires forall j :: i < j < |environ| ==> !WritesKey(environ, j, ConfigKey(EnvName(environ[i])))
    requires forall j :: 0 <= j < i ==> !Defines(environ[j], EnvName(environ[i]))
    ensures ConfigKey(EnvName(environ[i])) in ConfigFromEnv(environ)
    ensures ConfigFromEnv(environ)[ConfigKey(EnvName(environ[i]))] == EnvValue(environ[i])
  {
    LastWriterWins(environ, |environ|, i);
    GetenvOfEntry(environ, i);
  }

  /** An environment with one `KAFKA_` variable followed by an unrelated
      one yields a single entry: the first variable's key with its value. */
  lemma OneKafkaEntry(name0: string, value0: string, name1: string, value1: string)
    requires '=' !in name0 && '=' !in name1
    requires IsKafkaName(name0) && !IsKafkaName(name1)
    ensures ConfigFromEnv([name0 + "=" + value0, name1 + "=" + value1]) == map[ConfigKey(name0) := value0]
  {
    var environ := [name0 + "=" + value0, name1 + "=" + value1];
    EntryParts(name0, value0);
    EntryParts(name1, value1);
    assert Defines(environ[0], name0);
    assert ConfigAfter(environ, 1) == map[ConfigKey(name0) := value0];
  }

  /** `KAFKA_BOOTSTRAP_SERVERS` passes the prefix test. */
  lemma BootstrapServersIsKafka()
    ensures IsKafkaName("KAFKA_BOOTSTRAP_SERVERS")
  {
    var name := "KAFKA_BOOTSTRAP_SERVERS";
    assert ToUpper(name)[..|EnvPrefix|] == ToUpper(name[..|EnvPrefix|]);
    assert forall i :: 0 <= i < |EnvPrefix| ==> ToUpper(name)[i] == EnvPrefix[i];
  }

  /** The rest of that name, lower-cased and dotted. */
  lemma BootstrapServersRestDotted()
    ensures ReplaceAll(ToLower("BOOTSTRAP_SERVERS"), '_', '.') == "bootstrap.servers"
  {
    var rest := "BOOTSTRAP_SERVERS";
    assert forall i :: 0 <= i < |rest| ==> ToLower(rest)[i] == "bootstrap_servers"[i];
    assert ReplaceAll("bootstrap_servers", '_', '.') == "bootstrap.servers";
  }

  /** `KAFKA_BOOTSTRAP_SERVERS` becomes the key `bootstrap.servers`. */
  lemma BootstrapServersKey()
    ensures IsKafkaName("KAFKA_BOOTSTRAP_SERVERS")
    ensures ConfigKey("KAFKA_BOOTSTRAP_SERVERS") == "bootstrap.servers"
  {
    var name := "KAFKA_BOOTSTRAP_SERVERS";
    BootstrapServersIsKafka();
    ConfigKeyOfKafkaName(name);
    assert name[|EnvPrefix|..] == "BOOTSTRAP_SERVERS";
    BootstrapServersRestDotted();
  }

  /** `kafka_Bootstrap_servers`, written in mixed case, passes the prefix
      test. */
  lemma MixedCaseIsKafka()
    ensures IsKafkaName("kafka_Bootstrap_servers")
  {
    var name := "kafka_Bootstrap_servers";
    assert ToUpper(name)[..|EnvPrefix|] == ToUpper(name[..|EnvPrefix|]);
    assert forall i :: 0 <= i < |EnvPrefix| ==> ToUpper(name)[i] == EnvPrefix[i];
  }

  /** The rest of that name, lower-cased and dotted. */
  lemma MixedCaseRestDotted()
    ensures ReplaceAll(ToLower("Bootstrap_servers"), '_', '.') == "bootstrap.servers"
  {
    var rest := "Bootstrap_servers";
    assert forall i :: 0 <= i < |rest| ==> ToLower(rest)[i] == "bootstrap_servers"[i];
    assert ReplaceAll("bootstrap_servers", '_', '.') == "bootstrap.servers";
  }

  /** The prefix test and the key ignore case: `kafka_Bootstrap_servers`
      is read too, and keyed `bootstrap.servers` as well. */
  lemma MixedCaseKey()
    ensures IsKafkaName("kafka_Bootstrap_servers")
    ensures ConfigKey("kafka_Bootstrap_servers") == "bootstrap.servers"
  {
    var name := "kafka_Bootstrap_servers";
    MixedCaseIsKafka();
    ConfigKeyOfKafkaName(name);
    assert name[|EnvPrefix|..] == "Bootstrap_servers";
    MixedCaseRestDotted();
  }

  /** The environment `KAFKA_BOOTSTRAP_SERVERS=host:9092`, `PATH=/bin`
      configures `bootstrap.servers` as `host:9092` and nothing else. */
  lemma BootstrapServersExample()
    ensures ConfigFromEnv(["KAFKA_BOOTSTRAP_SERVERS=host:9092", "PATH=/bin"]) == map["bootstrap.servers" := "host:9092"]
  {
    BootstrapServersKey();
    assert !IsKafkaName("PATH");
    OneKafkaEntry("KAFKA_BOOTSTRAP_SERVERS", "host:9092", "PATH", "/bin");
    assert "KAFKA_BOOTSTRAP_SERVERS" + "=" + "host:9092" == "KAFKA_BOOTSTRAP_SERVERS=host:9092";
    assert "PATH" + "=" + "/bin" == "PATH=/bin";
  }

  /** The loop over `os.Environ()`: the map starts empty and each `KAFKA_`
      entry writes its translated key, a later write replacing an earlier
      one. Every key the map ends with is a dotted lower-case key. */
  method BuildConfigMap(environ: seq<string>) returns (configMap: map<string, string>)
    ensures configMap == ConfigFromEnv(environ)
    ensures forall key :: key in configMap ==> '_' !in key
  {
    configMap := map[];
    var i := 0;
    while i < |environ|
      invariant i <= |environ|
      invariant configMap == ConfigAfter(environ, i)
      invariant forall key :: key in configMap ==> '_' !in key
    {
      var envName := EnvName(environ[i]);
      var name := ToUpper(envName);
      if HasPrefix(name, EnvPrefix) {
        name := TrimPrefix(name, EnvPrefix);
        name := ToLower(name);
        name := ReplaceAll(name, '_', '.');
        configMap := configMap[name := Getenv(environ, envName)];
      }
      i := i + 1;
    }
  }
}
