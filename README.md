# kafka-topic-admin, modelled in Dafny

`kafka-topic-admin` is a command-line tool. It creates topics, deletes topics or lists the topics of a Kafka cluster. All of it lives in the `main` function of `cmd/main.go`. This project models the deterministic logic inside that function:

- **Mode check** (`Modes`). `-mode` must be exactly `create`, `delete` or `list-topics`.
- **Topic-list resolution** (`Topics`). The list from the `-topics-file` YAML file is replaced outright by a non-empty `-topics` flag, which `strings.Split` cuts on `,`.
- **Configuration from the environment** (`EnvConfig`). Each environment variable whose upper-cased name starts with `KAFKA_` becomes one entry of the client's configuration map. Its key is the rest of the name, lower-cased, with `_` turned into `.`. Its value is stored as it stands, and a later variable wins over an earlier one.
- **Create request** (`CreateSpecs`). There is one topic specification per topic, sharing the partition count and replication factor flags. The replication factor is set only when it is positive.
- **Result classification and exit status** (`Results`). Each per-topic result code is logged as info, warning or error. Any code other than "no error" (0) and "topic already exists" (36) makes the process call `os.Exit(-1)`, which a Unix parent sees as status 255.
- **The whole run** (`Admin`). Checks happen in the source's order, and the admin client is never touched when a configuration error occurs. At most one operation is issued: the one the mode selects, and none when the client cannot be constructed. A trace of client calls is returned along with the exit status.

`GoStrings` holds the parts of Go's `strings` package the program uses: ASCII `ToUpper`/`ToLower`, `HasPrefix`, `TrimPrefix`, `ReplaceAll`, `Split`, and `Join` as the inverse of `Split`. `Failures` holds the configuration errors and the exit statuses. `Wrappers` holds `Option` and `Result`.

Inputs that come from outside the program become parameters:
- the `os.Environ()` snapshot is a sequence of `NAME=value` strings;
- `os.Getenv` is a lookup in that snapshot;
- the topics file is what reading and unmarshalling produced (no file, unreadable, malformed, or a list of topics);
- the admin client is a description of how it behaves in the run (constructs or not, call succeeds or not, the per-topic results).

Some behaviour of `cmd/main.go` is easy to get wrong. The model follows the code on each point:
- The topics file is read and checked in every mode, `list-topics` included. An unreadable or malformed file is fatal even when `-topics` would have replaced its list.
- The configuration comes from the environment only. No YAML configuration file is merged in.
- The partition count is forwarded verbatim, the `-1` default included. Only the replication factor is filtered, and the default for `-create.replication-factor` is `-1`.
- A configuration, client-construction or client-call failure ends the run through logrus' `Fatal`, which exits with status 1. Per-topic failures call `os.Exit(-1)`, which a Unix parent sees as 255.

## Model

| member | source | states |
|---|---|---|
| `Modes.ParseMode` | cmd/main.go:66-72 | a mode is accepted iff it is one of the literals `create`, `delete`, `list-topics`, and an accepted mode is the one its literal names |
| `Modes.ParseModeName` | cmd/main.go:32-34 | the literal of each mode parses back to that mode |
| `GoStrings.ToUpper` | cmd/main.go:107 | upper-casing keeps the length, leaves no lower-case ASCII letter, and keeps each character's letter (it lower-cases as the input's does), so ASCII letters change case and everything else is kept |
| `GoStrings.ToLower` | cmd/main.go:113 | lower-casing keeps the length, leaves no upper-case ASCII letter, and keeps each character's letter (it upper-cases as the input's does), so ASCII letters change case and everything else is kept |
| `GoStrings.LowerOfUpper` | cmd/main.go:107-113 | with the ASCII case mapping, lower-casing after upper-casing equals lower-casing the original |
| `GoStrings.HasPrefix` | cmd/main.go:109 | a string has a prefix iff it is at least as long and agrees with it character by character |
| `GoStrings.TrimPrefix` | cmd/main.go:111 | with the prefix present, prefix plus result is the input; without it the input is returned unchanged |
| `GoStrings.ReplaceAll` | cmd/main.go:115 | every `from` becomes `to`, every other character is kept, and `from` no longer occurs |
| `GoStrings.Split` | cmd/main.go:94 | splitting always yields at least one piece (the lemmas below pin down which) |
| `GoStrings.JoinSplit` | cmd/main.go:94 | joining the pieces with the separator gives the input back: no trimming, empty pieces kept |
| `GoStrings.SplitAfterPiece` | cmd/main.go:94 | a separator-free string splits to itself alone, and followed by the separator it becomes the first piece of the split |
| `GoStrings.SplitJoin` | cmd/main.go:94 | a non-empty list of separator-free pieces is recovered by splitting its join |
| `GoStrings.SplitPiecesFree` | cmd/main.go:94 | no piece contains the separator |
| `GoStrings.SplitHead` | cmd/main.go:106 | the first piece is the text before the first separator: a separator-free prefix, followed by the separator when shorter than the input, the whole input when there is no separator |
| `Topics.ResolveTopics` | cmd/main.go:75-95 | an unreadable or malformed file is an error even with the flag set; a non-empty flag gives exactly `Split(flag, ",")`, never empty, whose join is the flag; an empty flag gives the file's list, or nothing without a file |
| `EnvConfig.Getenv` | cmd/main.go:117-118 | a non-empty result is the value of some entry defining the name, and a name no entry defines gives ""; `EnvConfig.GetenvOfEntry` says which entry: the first |
| `EnvConfig.EnvName` | cmd/main.go:106 | the name of an entry is the `=`-free prefix before its first `=`, or the whole entry |
| `EnvConfig.EnvValue` | cmd/main.go:117-118 | name, `=` and value put together give the entry back |
| `EnvConfig.EntryParts` | cmd/main.go:106-118 | an entry `name=value` with an `=`-free name has exactly that name and that value |
| `EnvConfig.ConfigKey` | cmd/main.go:107-115 | a configuration key holds no `_` and no upper-case ASCII letter, and is six characters shorter than a `KAFKA_` name |
| `EnvConfig.KafkaNameIgnoresCase` | cmd/main.go:107-109 | a name is read iff its first six characters, upper-cased, are `KAFKA_`, and a name is read iff its lower-cased form is |
| `EnvConfig.ConfigKeyOfKafkaName` | cmd/main.go:107-115 | the key of a `KAFKA_` name is the rest of the name as written, lower-cased, with `_` replaced by `.` |
| `EnvConfig.ConfigKeys` | cmd/main.go:105-120 | a key is in the map iff some `KAFKA_` entry translates to it; other entries add nothing |
| `EnvConfig.ConfigKeysAreDotted` | cmd/main.go:105-118 | every key of the final map is free of `_` and of upper-case ASCII letters |
| `EnvConfig.LastWriterWins` | cmd/main.go:105-120 | among entries translating to one key, the last decides the stored value, which is `os.Getenv` of its name |
| `EnvConfig.GetenvOfEntry` | cmd/main.go:118 | `os.Getenv` of an entry's name gives that entry's value when no earlier entry defines the name: the first definition wins |
| `EnvConfig.ConfigValueVerbatim` | cmd/main.go:105-120 | the stored value is exactly the value written in the last `KAFKA_` entry for that key |
| `EnvConfig.OneKafkaEntry` | cmd/main.go:103-120 | one `KAFKA_` variable followed by an unrelated one yields a single-entry map with its key and value |
| `EnvConfig.BootstrapServersKey` | cmd/main.go:107-115 | `KAFKA_BOOTSTRAP_SERVERS` is read and keyed `bootstrap.servers` |
| `EnvConfig.MixedCaseKey` | cmd/main.go:107-115 | the mixed-case name `kafka_Bootstrap_servers` is read and keyed `bootstrap.servers` |
| `EnvConfig.BootstrapServersExample` | cmd/main.go:103-120 | the environment `KAFKA_BOOTSTRAP_SERVERS=host:9092`, `PATH=/bin` gives exactly `bootstrap.servers` = `host:9092` |
| `EnvConfig.BuildConfigMap` | cmd/main.go:103-120 | the loop builds exactly the map the environment specifies, with no `_` in any key |
| `CreateSpecs.BuildCreateSpecs` | cmd/main.go:145-158 | one specification per topic, same order and name, partition count verbatim, replication factor the flag when positive and 0 otherwise, never negative |
| `Results.SeverityOf` | cmd/main.go:192-201 | info iff the code is 0, warning iff it is 36, error iff it is any other code |
| `Results.ClassifyResults` | cmd/main.go:187-202 | one severity per result in order; error severity iff the code is neither 0 nor 36; `isFatal` iff some result has such a code |
| `Results.ExitStatus` | cmd/main.go:204-206 | the status passed to `os.Exit` is -1 iff the run is fatal, 0 otherwise |
| `Admin.CheckArguments` | cmd/main.go:66-99 | an unknown mode fails first; with a valid mode an unreadable or malformed file gives that file error; the checks pass iff the mode is valid, the file is absent or readable, and a create or delete has a non-empty topic list; on success the mode is the parsed one, the topics are the selected list, and a create or delete has at least one topic; the empty-list error arises iff create or delete meets an empty flag and an absent or empty file |
| `Admin.FlagMeetsTopicRequirement` | cmd/main.go:93-99 | with a valid mode and a readable file, a non-empty `-topics` always passes and yields its split |
| `Admin.ListTopicsNeedsNoTopics` | cmd/main.go:97-99 | `list-topics` passes the checks iff the topics file is absent or readable |
| `Admin.Run` | cmd/main.go:52-207 | a configuration error exits 1 with no client call; otherwise the client gets the environment's map; a failed construction exits 1 with no further call; a constructed client gets exactly the mode's operation with the specs or topics above; a failed call exits 1; a successful create or delete logs each result once and passes -1 to `os.Exit` iff some result failed, else returns with 0; list-topics exits 0 |

## Left out

- Flag parsing, log-level parsing and logger setup (lines 53-64) are library behaviour. The flags arrive as values.
- Reading the topics file and YAML unmarshalling (lines 77-91) are I/O and a foreign parser. Their outcome is an input.
- Constructing the admin client and its calls (`NewAdminClient`, `CreateTopics`, `DeleteTopics`, `GetMetadata`) are network and foreign code. A run is given their behaviour, and the model records these calls in the order made.
- `kafka.LibraryVersion` and `kafka.LibrdkafkaLinkInfo` (lines 122-124) are only read to be logged at debug level. They are dropped from the model and appear in no trace.
- Contexts, cancellation, the `-duration` timeout and its conversion to milliseconds are time plumbing, so they are not modelled.
- Log output is not modelled beyond the severity each per-topic result is logged at. This includes the debug lines and the printing of topic names in `list-topics` mode.
- The deferred `Close` and `cancel` are not modelled.
- `ToUpper`/`ToLower` map only ASCII letters. Go's Unicode case mapping of other characters is not modelled.
- `EnvConfig.ConfigValueVerbatim`: requires that no earlier entry defines the same name. The Go runtime drops later duplicates of a name from `os.Environ`, and the snapshot is given, not produced by that runtime.
- The fields of `kafka.TopicSpecification` that the program never sets (replica assignment, per-topic config) are not modelled.
- The `default:` branch of the mode switch (line 179-180) cannot be reached once the mode has been checked. The `Mode` datatype has no value for it.
