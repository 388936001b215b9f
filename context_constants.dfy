/**
 * `constantsFromObject` of `src/utils.ts`: the per-event constants a live
 * interaction's templates can refer to.  The clock and the event's user are
 * inputs here; the event is either a guild member joining (no command) or an
 * interaction, which may be a slash command carrying options.
 */
module ContextConstants {
  import opened Wrappers
  import opened JsValue
  import opened TreeTransforms

  /** What `new Date()` reports at the moment the constants are built. */
  datatype Clock = Clock(
    timestamp: int,
    dateString: string,
    timeString: string,
    jsonString: string,
    day: int,
    month: int,
    year: int,
    hours: int,
    minutes: int,
    seconds: int)

  /** The event's user; `avatarUrl` is what `displayAvatarURL()` returns. */
  datatype User = User(id: string, username: string, discriminator: string, avatarUrl: string)

  /** The application command option types. */
  datatype OptionType =
    | SubCommand
    | SubCommandGroup
    | StringOption
    | IntegerOption
    | BooleanOption
    | UserOption
    | ChannelOption
    | RoleOption
    | MentionableOption
    | NumberOption

  /** One entry of `interaction.options.data`. */
  datatype CommandOption = CommandOption(name: string, kind: OptionType, value: Value)

  /**
   * The object the constants are built from: its user, if any, and, when it is
   * a slash command (`isCommand()`), the top-level options it was invoked with.
   */
  datatype Event = Event(user: Option<User>, command: Option<seq<CommandOption>>)

  predicate IsSubCommand(o: CommandOption) {
    o.kind == SubCommand || o.kind == SubCommandGroup
  }

  /** The `@DATE` branch. */
  function DateBranch(clock: Clock): Value {
    Obj([
      ("TIMESTAMP", Num(clock.timestamp)),
      ("DATE_STRING", Str(clock.dateString)),
      ("TIME_STRING", Str(clock.timeString)),
      ("JSON_STRING", Str(clock.jsonString)),
      ("DAY", Num(clock.day)),
      ("MONTH", Num(clock.month)),
      ("YEAR", Num(clock.year)),
      ("HOURS", Num(clock.hours)),
      ("MINUTES", Num(clock.minutes)),
      ("SECONDS", Num(clock.seconds))])
  }

  /** The `@USER` branch. */
  function UserBranch(u: User): Value {
    Obj([("ID", Str(u.id)), ("USERNAME", Str(u.username)), ("TAG", Str(u.discriminator)), ("AVATAR", Str(u.avatarUrl))])
  }

  /** The value stored for one option: objects go through `keysToUpperCase`. */
  function OptionValue(v: Value): Result<Value, JsError> {
    if IsObjectTyped(v) then UpperCased(v) else Success(v)
  }

  /** The assignments the option loop makes into `@OPTIONS` for the first `n` options, in order. */
  function OptionAssignments(opts: seq<CommandOption>, n: nat): Result<seq<Entry>, JsError>
    requires n <= |opts|
  {
    if n == 0 then Success([])
    else
      match OptionAssignments(opts, n - 1)
      case Failure(e) => Failure(e)
      case Success(prefix) =>
        var o := opts[n - 1];
        if IsSubCommand(o) then Success(prefix)
        else
          match OptionValue(o.value)
          case Failure(e) => Failure(e)
          case Success(v) => Success(prefix + [(ToUpperCase(o.name), v)])
  }

  /** The properties every constants object starts with: `@DATE`, then `@USER` when there is a user. */
  function BaseFields(clock: Clock, user: Option<User>): seq<Entry> {
    [("@DATE", DateBranch(clock))] + (if user.Some? then [("@USER", UserBranch(user.value))] else [])
  }

  /** What `constantsFromObject(obj)` returns (or throws). */
  function ConstantsFromObject(clock: Clock, event: Event): Result<Value, JsError> {
    var base := BaseFields(clock, event.user);
    if event.command.None? then Success(Obj(base))
    else
      var opts := event.command.value;
      match OptionAssignments(opts, |opts|)
      case Failure(e) => Failure(e)
      case Success(es) =>
        if |es| == 0 then Success(Obj(base))
        else Success(Obj(base + [("@OPTIONS", Obj(FromEntries(es)))]))
  }

  /** The event is a command with at least one option that is not a subcommand or group. */
  predicate HasValueOptions(event: Event) {
    event.command.Some? && exists i :: 0 <= i < |event.command.value| && !IsSubCommand(event.command.value[i])
  }

  /** A value option of the event carries a null somewhere. */
  predicate HasNullOption(event: Event) {
    event.command.Some? &&
    exists i :: 0 <= i < |event.command.value| &&
      !IsSubCommand(event.command.value[i]) && HasNull(event.command.value[i].value)
  }

  // ---------------------------------------------------------------------------
  // The option loop.

  lemma OptionValueFails(v: Value)
    ensures OptionValue(v).Failure? <==> HasNull(v)
  {
    if IsObjectTyped(v) {
      RebuildFails(v, ToUpperCase, SameLeaf);
    }
  }

  /** The loop throws exactly when a value option holds a null (`keysToUpperCase(null)`). */
  lemma {:induction false} OptionAssignmentsFail(opts: seq<CommandOption>, n: nat)
    requires n <= |opts|
    ensures OptionAssignments(opts, n).Failure? <==>
      exists i :: 0 <= i < n && !IsSubCommand(opts[i]) && HasNull(opts[i].value)
  {
    if n > 0 {
      OptionAssignmentsFail(opts, n - 1);
      OptionValueFails(opts[n - 1].value);
    }
  }

  /** Every assignment is the upper-cased name of a value option, and every value option makes one. */
  lemma {:induction false} OptionAssignmentsKeys(opts: seq<CommandOption>, n: nat)
    requires n <= |opts|
    requires OptionAssignments(opts, n).Success?
    ensures forall k :: HasKey(OptionAssignments(opts, n).value, k) <==>
      exists i :: 0 <= i < n && !IsSubCommand(opts[i]) && ToUpperCase(opts[i].name) == k
  {
    if n > 0 {
      OptionAssignmentsKeys(opts, n - 1);
      var prefix := OptionAssignments(opts, n - 1).value;
      var es := OptionAssignments(opts, n).value;
      forall k ensures HasKey(es, k) <==>
        exists i :: 0 <= i < n && !IsSubCommand(opts[i]) && ToUpperCase(opts[i].name) == k
      {
        if HasKey(prefix, k) {
          var j :| 0 <= j < |prefix| && prefix[j].0 == k;
          assert es[j] == prefix[j];
        }
        if HasKey(es, k) && !HasKey(prefix, k) {
          var j :| 0 <= j < |es| && es[j].0 == k;
          assert j == |prefix|;
        }
        if !IsSubCommand(opts[n - 1]) {
          assert es[|prefix|].0 == ToUpperCase(opts[n - 1].name);
        }
      }
    }
  }

  /**
   * When two value options have the same upper-cased name, the later one's
   * value is the one assigned last.
   */
  lemma {:induction false} OptionAssignmentsLastWins(opts: seq<CommandOption>, n: nat, i: nat)
    requires i < n <= |opts|
    requires OptionAssignments(opts, n).Success?
    requires !IsSubCommand(opts[i])
    requires forall j :: i < j < n && !IsSubCommand(opts[j]) ==> ToUpperCase(opts[j].name) != ToUpperCase(opts[i].name)
    ensures OptionValue(opts[i].value).Success?
    ensures LastValue(OptionAssignments(opts, n).value, ToUpperCase(opts[i].name)) == Some(OptionValue(opts[i].value).value)
  {
    var prefix := OptionAssignments(opts, n - 1).value;
    var es := OptionAssignments(opts, n).value;
    if i < n - 1 {
      OptionAssignmentsLastWins(opts, n - 1, i);
      if !IsSubCommand(opts[n - 1]) {
        assert es[..|es| - 1] == prefix;
      }
    } else {
      assert es[..|es| - 1] == prefix;
    }
  }

  lemma {:induction false} OptionAssignmentsEmpty(opts: seq<CommandOption>, n: nat)
    requires n <= |opts|
    requires OptionAssignments(opts, n).Success?
    ensures |OptionAssignments(opts, n).value| == 0 <==> forall i :: 0 <= i < n ==> IsSubCommand(opts[i])
  {
    if n > 0 {
      OptionAssignmentsEmpty(opts, n - 1);
    }
  }

  /** Option values end up with upper-case keys at every depth and without nulls. */
  lemma {:induction false} OptionAssignmentsUpper(opts: seq<CommandOption>, n: nat)
    requires n <= |opts|
    requires OptionAssignments(opts, n).Success?
    ensures forall j :: 0 <= j < |OptionAssignments(opts, n).value| ==>
      IsUpperCase(OptionAssignments(opts, n).value[j].0) &&
      KeysUpper(OptionAssignments(opts, n).value[j].1) &&
      !HasNull(OptionAssignments(opts, n).value[j].1)
  {
    if n > 0 {
      OptionAssignmentsUpper(opts, n - 1);
      var o := opts[n - 1];
      if !IsSubCommand(o) {
        OptionValueFails(o.value);
        ToUpperCaseIdempotent(o.name);
        if IsObjectTyped(o.value) {
          KeysToUpperCaseAllUpper(o.value);
          RebuildNoNull(o.value, ToUpperCase, SameLeaf);
        }
      }
    }
  }

  // ---------------------------------------------------------------------------
  // The constants object.

  lemma BaseFieldsFacts(clock: Clock, user: Option<User>)
    ensures var base := BaseFields(clock, user);
      Keys(base) == ["@DATE"] + (if user.Some? then ["@USER"] else []) &&
      DistinctKeys(base) && !HasKey(base, "@OPTIONS") &&
      forall j :: 0 <= j < |base| ==> !HasNull(base[j].1)
  {
    var base := BaseFields(clock, user);
    assert "@DATE"[1] != "@OPTIONS"[1] && "@USER"[1] != "@OPTIONS"[1] && "@DATE"[1] != "@USER"[1];
    assert DateBranch(clock).fields[9].1 == Num(clock.seconds);
    forall j | 0 <= j < |base| ensures base[j].0 != "@OPTIONS" {
    }
  }

  /** The fields of a successful constants object: the base, then `@OPTIONS` when there is a value option. */
  lemma ConstantsFromObjectFields(clock: Clock, event: Event)
    requires ConstantsFromObject(clock, event).Success?
    ensures var fs := ConstantsFromObject(clock, event).value.fields;
      var base := BaseFields(clock, event.user);
      if HasValueOptions(event) then
        var opts := event.command.value;
        OptionAssignments(opts, |opts|).Success? &&
        fs == base + [("@OPTIONS", Obj(FromEntries(OptionAssignments(opts, |opts|).value)))]
      else fs == base
  {
    if event.command.Some? {
      OptionAssignmentsEmpty(event.command.value, |event.command.value|);
    }
  }

  /** `constantsFromObject` throws exactly when a value option holds a null. */
  lemma ConstantsFromObjectFails(clock: Clock, event: Event)
    ensures ConstantsFromObject(clock, event).Failure? <==> HasNullOption(event)
  {
    if event.command.Some? {
      OptionAssignmentsFail(event.command.value, |event.command.value|);
    }
  }

  /**
   * The top-level keys, in order and distinct: `@DATE` always, then `@USER`
   * when the event has a user, then `@OPTIONS` when the command has a value
   * option.
   */
  lemma ConstantsFromObjectKeys(clock: Clock, event: Event)
    requires !HasNullOption(event)
    ensures ConstantsFromObject(clock, event).Success?
    ensures var r := ConstantsFromObject(clock, event).value;
      r.Obj? && DistinctKeys(r.fields) &&
      Keys(r.fields) == ["@DATE"] + (if event.user.Some? then ["@USER"] else []) +
                        (if HasValueOptions(event) then ["@OPTIONS"] else [])
  {
    ConstantsFromObjectFails(clock, event);
    ConstantsFromObjectFields(clock, event);
    BaseFieldsFacts(clock, event.user);
    var fs := ConstantsFromObject(clock, event).value.fields;
    var base := BaseFields(clock, event.user);
    if HasValueOptions(event) {
      forall j | 0 <= j < |base| ensures base[j].0 != "@OPTIONS" {
      }
    }
  }

  /** The `@DATE` branch names its ten readings once each, in this order. */
  lemma DateBranchKeys(clock: Clock)
    ensures var d := DateBranch(clock).fields;
      DistinctKeys(d) &&
      Keys(d) == ["TIMESTAMP", "DATE_STRING", "TIME_STRING", "JSON_STRING", "DAY", "MONTH", "YEAR", "HOURS", "MINUTES", "SECONDS"]
  {
    var d := DateBranch(clock).fields;
    assert DistinctKeys(d);
  }

  /** The first five readings of the `@DATE` branch: the timestamp and the clock's texts and day. */
  lemma DateBranchTexts(clock: Clock)
    ensures var d := DateBranch(clock).fields;
      Lookup(d, "TIMESTAMP") == Some(Num(clock.timestamp)) &&
      Lookup(d, "DATE_STRING") == Some(Str(clock.dateString)) &&
      Lookup(d, "TIME_STRING") == Some(Str(clock.timeString)) &&
      Lookup(d, "JSON_STRING") == Some(Str(clock.jsonString)) &&
      Lookup(d, "DAY") == Some(Num(clock.day))
  {
    var d := DateBranch(clock).fields;
    DateBranchKeys(clock);
    LookupAt(d, 1);
    LookupAt(d, 2);
    LookupAt(d, 3);
    LookupAt(d, 4);
  }

  /** The last five readings of the `@DATE` branch: the calendar and wall-clock numbers. */
  lemma DateBranchNumbers(clock: Clock)
    ensures var d := DateBranch(clock).fields;
      Lookup(d, "MONTH") == Some(Num(clock.month)) &&
      Lookup(d, "YEAR") == Some(Num(clock.year)) &&
      Lookup(d, "HOURS") == Some(Num(clock.hours)) &&
      Lookup(d, "MINUTES") == Some(Num(clock.minutes)) &&
      Lookup(d, "SECONDS") == Some(Num(clock.seconds))
  {
    var d := DateBranch(clock).fields;
    DateBranchKeys(clock);
    LookupAt(d, 5);
    LookupAt(d, 6);
    LookupAt(d, 7);
    LookupAt(d, 8);
    LookupAt(d, 9);
  }

  /** The `@DATE` branch holds the ten clock readings under distinct upper-case names. */
  lemma DateBranchFacts(clock: Clock)
    ensures var d := DateBranch(clock).fields;
      DistinctKeys(d) &&
      Keys(d) == ["TIMESTAMP", "DATE_STRING", "TIME_STRING", "JSON_STRING", "DAY", "MONTH", "YEAR", "HOURS", "MINUTES", "SECONDS"] &&
      Lookup(d, "TIMESTAMP") == Some(Num(clock.timestamp)) &&
      Lookup(d, "DATE_STRING") == Some(Str(clock.dateString)) &&
      Lookup(d, "TIME_STRING") == Some(Str(clock.timeString)) &&
      Lookup(d, "JSON_STRING") == Some(Str(clock.jsonString)) &&
      Lookup(d, "DAY") == Some(Num(clock.day)) &&
      Lookup(d, "MONTH") == Some(Num(clock.month)) &&
      Lookup(d, "YEAR") == Some(Num(clock.year)) &&
      Lookup(d, "HOURS") == Some(Num(clock.hours)) &&
      Lookup(d, "MINUTES") == Some(Num(clock.minutes)) &&
      Lookup(d, "SECONDS") == Some(Num(clock.seconds))
  {
    DateBranchKeys(clock);
    DateBranchTexts(clock);
    DateBranchNumbers(clock);
  }

  /** `@DATE` is always present, whatever the event, and holds the clock's readings. */
  lemma ConstantsFromObjectDate(clock: Clock, event: Event)
    requires ConstantsFromObject(clock, event).Success?
    ensures Lookup(ConstantsFromObject(clock, event).value.fields, "@DATE") == Some(DateBranch(clock))
  {
    ConstantsFromObjectFields(clock, event);
    BaseFieldsFacts(clock, event.user);
    var fs := ConstantsFromObject(clock, event).value.fields;
    assert fs[0] == ("@DATE", DateBranch(clock));
  }

  /** `@USER` is present exactly when the event has a user, and then holds that user's fields. */
  lemma ConstantsFromObjectUser(clock: Clock, event: Event)
    requires ConstantsFromObject(clock, event).Success?
    ensures var fs := ConstantsFromObject(clock, event).value.fields;
      (HasKey(fs, "@USER") <==> event.user.Some?) &&
      (event.user.Some? ==> Lookup(fs, "@USER") == Some(UserBranch(event.user.value)))
  {
    ConstantsFromObjectFails(clock, event);
    ConstantsFromObjectKeys(clock, event);
    var fs := ConstantsFromObject(clock, event).value.fields;
    if HasKey(fs, "@USER") {
      var j :| 0 <= j < |fs| && fs[j].0 == "@USER";
      assert Keys(fs)[j] == "@USER";
      assert "@DATE"[1] != "@USER"[1] && "@OPTIONS"[1] != "@USER"[1];
    }
    if event.user.Some? {
      ConstantsFromObjectFields(clock, event);
      assert fs[1].0 == "@USER";
      LookupAt(fs, 1);
    }
  }

  /**
   * `@OPTIONS` is present exactly when the command has a value option; its keys
   * are exactly the upper-cased names of the value options, every key in it, at
   * every depth, is upper-case, and it holds no null.
   */
  lemma ConstantsFromObjectOptions(clock: Clock, event: Event)
    requires ConstantsFromObject(clock, event).Success?
    ensures var fs := ConstantsFromObject(clock, event).value.fields;
      (HasKey(fs, "@OPTIONS") <==> HasValueOptions(event)) &&
      (HasValueOptions(event) ==>
        var o := Lookup(fs, "@OPTIONS").value;
        o.Obj? && KeysUpper(o) && !HasNull(o) &&
        forall k :: HasKey(o.fields, k) <==>
          exists i :: 0 <= i < |event.command.value| && !IsSubCommand(event.command.value[i]) &&
            ToUpperCase(event.command.value[i].name) == k)
  {
    var fs := ConstantsFromObject(clock, event).value.fields;
    var base := BaseFields(clock, event.user);
    ConstantsFromObjectFields(clock, event);
    BaseFieldsFacts(clock, event.user);
    if HasValueOptions(event) {
      var opts := event.command.value;
      var es := OptionAssignments(opts, |opts|).value;
      OptionAssignmentsKeys(opts, |opts|);
      OptionAssignmentsUpper(opts, |opts|);
      FromEntriesHasKey(es);
      FromEntriesEntries(es);
      var r := FromEntries(es);
      forall j | 0 <= j < |r| ensures IsUpperCase(r[j].0) && KeysUpper(r[j].1) && !HasNull(r[j].1) {
        var i :| 0 <= i < |es| && es[i] == r[j];
      }
      PutNewAppends(base, "@OPTIONS", Obj(r));
    }
  }

  /**
   * An option's value under `@OPTIONS` is that of the last value option with
   * the same upper-cased name: a scalar as given, an object with its keys
   * upper-cased.
   */
  lemma ConstantsFromObjectOptionValue(clock: Clock, event: Event, i: nat)
    requires !HasNullOption(event)
    requires event.command.Some? && i < |event.command.value|
    requires !IsSubCommand(event.command.value[i])
    requires forall j :: i < j < |event.command.value| && !IsSubCommand(event.command.value[j]) ==>
      ToUpperCase(event.command.value[j].name) != ToUpperCase(event.command.value[i].name)
    ensures ConstantsFromObject(clock, event).Success?
    ensures var fs := ConstantsFromObject(clock, event).value.fields;
      HasKey(fs, "@OPTIONS") && Lookup(fs, "@OPTIONS").value.Obj? &&
      Lookup(Lookup(fs, "@OPTIONS").value.fields, ToUpperCase(event.command.value[i].name)) ==
        Some(UpperProperty(event.command.value[i].value))
  {
    ConstantsFromObjectFails(clock, event);
    var opts := event.command.value;
    var es := OptionAssignments(opts, |opts|).value;
    var base := BaseFields(clock, event.user);
    ConstantsFromObjectFields(clock, event);
    BaseFieldsFacts(clock, event.user);
    OptionAssignmentsLastWins(opts, |opts|, i);
    PutNewAppends(base, "@OPTIONS", Obj(FromEntries(es)));
    RebuildPropertyFails(opts[i].value, ToUpperCase, SameLeaf);
  }

  /** The per-event constants never hold a null, so substituting with them never throws. */
  lemma ConstantsFromObjectNoNull(clock: Clock, event: Event)
    requires ConstantsFromObject(clock, event).Success?
    ensures !HasNull(ConstantsFromObject(clock, event).value)
  {
    var fs := ConstantsFromObject(clock, event).value.fields;
    var base := BaseFields(clock, event.user);
    ConstantsFromObjectFields(clock, event);
    BaseFieldsFacts(clock, event.user);
    ConstantsFromObjectOptions(clock, event);
    if HasValueOptions(event) {
      PutNewAppends(base, "@OPTIONS", fs[|base|].1);
      forall j | 0 <= j < |fs| ensures !HasNull(fs[j].1) {
        if j < |base| {
          assert fs[j] == base[j];
        }
      }
    }
  }

  /**
   * `/roll count:5` in subcommand `dice`: the subcommand entry is skipped and
   * the option appears upper-cased under `@OPTIONS`.
   */
  lemma CountOptionExample(clock: Clock)
    ensures var event := Event(None, Some([CommandOption("dice", SubCommand, Null), CommandOption("count", IntegerOption, Num(5))]));
      ConstantsFromObject(clock, event).Success? &&
      var fs := ConstantsFromObject(clock, event).value.fields;
      Keys(fs) == ["@DATE", "@OPTIONS"] &&
      HasKey(fs, "@OPTIONS") && Lookup(fs, "@OPTIONS").value.Obj? &&
      Lookup(Lookup(fs, "@OPTIONS").value.fields, "COUNT") == Some(Num(5))
  {
    var opts := [CommandOption("dice", SubCommand, Null), CommandOption("count", IntegerOption, Num(5))];
    var event := Event(None, Some(opts));
    assert IsSubCommand(opts[0]) && !IsSubCommand(opts[1]);
    assert !HasNullOption(event) by {
      forall i | 0 <= i < |opts| && !IsSubCommand(opts[i]) ensures !HasNull(opts[i].value) {
        assert i == 1;
      }
    }
    assert HasValueOptions(event);
    ConstantsFromObjectKeys(clock, event);
    assert ToUpperCase("count") == "COUNT";
    ConstantsFromObjectOptionValue(clock, event, 1);
  }
}
