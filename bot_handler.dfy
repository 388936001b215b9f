/**
 * The decision logic of `DiscordBotHandler` in `src/index.ts`: loading the
 * live constants and config, registering the command list, and the
 * permission gate and command resolution of the `interactionCreate` handler.
 *
 * File contents, YAML parsing and the command managers' lookups are inputs:
 * a file is read as `FileRead`, a parser is a function from text to a result,
 * and a resolver is a function from a command name to the class it finds.
 * The config parser gives `None` for a document that loads as `undefined` or
 * `null` (an empty file, only comments, `~`): `loadConfig` stores that
 * without throwing.
 */
module BotHandler {
  import opened Wrappers
  import opened JsValue
  import opened TreeTransforms
  import opened Template
  import opened TemplateLemmas
  import opened Permissions
  import opened CommandRegistry

  /** What reading a live repository file gives: absent, unreadable, or its text. */
  datatype FileRead = Missing | Unreadable | Contents(text: string)

  /** The part of the live config the model uses: the permission rules keyed by command. */
  datatype LiveConfig = LiveConfig(permissions: map<string, PermissionRule>)

  /** The REST request `registerCommands` sends: the target guild and the body. */
  datatype Registration = Registration(guildId: string, body: seq<Command>)

  /** The interactions the command branch of the handler tells apart. */
  datatype InteractionKind = SlashCommand | Autocomplete | OtherInteraction

  /** What the handler does with an interaction. */
  datatype Outcome =
    | Ignored
    | Refused(replied: bool)
    | Unresolved
    | Dispatched(kind: InteractionKind, handler: string)
      /**
       * The handler threw and its `catch` ran: a slash command gets the error
       * follow-up, an autocomplete request goes to `logInternalError`.
       */
    | Thrown(kind: InteractionKind)

  /** The config `{}`. */
  function EmptyConfig(): LiveConfig {
    LiveConfig(map[])
  }

  /** `liveConstants` after `loadConstants`: the parsed file, or `{}` when it is missing or anything throws. */
  function LoadedConstants(file: FileRead, parse: string -> Result<Value, JsError>): Value {
    match file
    case Missing => Obj([])
    case Unreadable => Obj([])
    case Contents(t) => if parse(t).Success? then parse(t).value else Obj([])
  }

  /**
   * `liveConfig` after `loadConfig` with the constants tree `constants`: the
   * file's text with the constants substituted, parsed (`None` when the
   * document loads as `undefined` or `null`); `{}` when the file is missing
   * or reading, substituting or parsing throws.
   */
  function LoadedConfig(constants: Value, file: FileRead, parse: string -> Result<Option<LiveConfig>, JsError>): Option<LiveConfig> {
    match file
    case Missing => Some(EmptyConfig())
    case Unreadable => Some(EmptyConfig())
    case Contents(t) =>
      match Substitute(constants, t)
      case Failure(_) => Some(EmptyConfig())
      case Success(s) => if parse(s).Success? then parse(s).value else Some(EmptyConfig())
  }

  /** The constants tree after `loadConfig`: substitution has added `@ENCODED` to it, if it ran that far. */
  function ConstantsAfterConfig(constants: Value, file: FileRead): Value {
    if file.Contents? && WithEncoded(constants).Success? then WithEncoded(constants).value else constants
  }

  /** `path.join(commandName, subcommand ?? '')` for names without path separators or dot segments. */
  function RuleKey(name: string, sub: Option<string>): string {
    if sub.None? || sub.value == "" then name else name + "/" + sub.value
  }

  /** The subcommand a rule key names, `""` for none. */
  function SubOrEmpty(sub: Option<string>): string {
    if sub.None? then "" else sub.value
  }

  class DiscordBotHandler {
    /** `Constants.DEV_MODE` and the two guild ids the command list can go to. */
    const devMode: bool
    const guildId: string
    const devGuildId: string

    var liveConstants: ConstantsTree
    /** `None` while the config is the `undefined` or `null` a document loaded as. */
    var liveConfig: Option<LiveConfig>
    /** The command registrations sent so far, oldest first. */
    var registrations: seq<Registration>

    constructor (devMode: bool, guildId: string, devGuildId: string)
      ensures this.devMode == devMode && this.guildId == guildId && this.devGuildId == devGuildId
      ensures fresh(liveConstants) && liveConstants.root == Obj([])
      ensures liveConfig == Some(EmptyConfig()) && registrations == []
    {
      this.devMode := devMode;
      this.guildId := guildId;
      this.devGuildId := devGuildId;
      liveConstants := new ConstantsTree(Obj([]));
      liveConfig := Some(EmptyConfig());
      registrations := [];
    }

    /** The guild the command list is registered to. */
    function TargetGuild(): string {
      if devMode then devGuildId else guildId
    }

    /** `registerCommands(commands)` */
    method RegisterCommands(commands: seq<Command>)
      modifies this
      ensures registrations == old(registrations) + [Registration(TargetGuild(), Registered(commands))]
      ensures liveConstants == old(liveConstants) && liveConfig == old(liveConfig)
    {
      var body := Deduplicate(commands);
      if devMode {
        registrations := registrations + [Registration(devGuildId, body)];
      } else {
        registrations := registrations + [Registration(guildId, body)];
      }
    }

    /** `unloadCommands()`: the guild's command list is replaced by an empty one. */
    method UnloadCommands()
      modifies this
      ensures registrations == old(registrations) + [Registration(TargetGuild(), [])]
      ensures liveConstants == old(liveConstants) && liveConfig == old(liveConfig)
    {
      RegisterCommands([]);
      RegisteredEmpty();
    }

    /** `loadConstants()`: reset to `{}`, then take the parsed file; the text is not substituted. */
    method LoadConstants(file: FileRead, parse: string -> Result<Value, JsError>)
      modifies this
      ensures fresh(liveConstants) && liveConstants.root == LoadedConstants(file, parse)
      ensures liveConfig == old(liveConfig) && registrations == old(registrations)
    {
      liveConstants := new ConstantsTree(Obj([]));
      if file.Missing? {
        return;
      }
      if file.Unreadable? {
        liveConstants := new ConstantsTree(Obj([]));
        return;
      }
      var parsed := parse(file.text);
      if parsed.Failure? {
        liveConstants := new ConstantsTree(Obj([]));
        return;
      }
      liveConstants := new ConstantsTree(parsed.value);
    }

    /**
     * `loadConfig()`: reset to `{}`, then substitute the current constants
     * into the file's text and take the parsed result.
     */
    method LoadConfig(file: FileRead, parse: string -> Result<Option<LiveConfig>, JsError>)
      modifies this, liveConstants
      ensures liveConfig == LoadedConfig(old(liveConstants.root), file, parse)
      ensures liveConstants == old(liveConstants) && liveConstants.root == ConstantsAfterConfig(old(liveConstants.root), file)
      ensures registrations == old(registrations)
    {
      liveConfig := Some(EmptyConfig());
      if file.Missing? {
        return;
      }
      if file.Unreadable? {
        liveConfig := Some(EmptyConfig());
        return;
      }
      var substituted := liveConstants.SubstituteTemplateLiterals(file.text);
      if substituted.Failure? {
        liveConfig := Some(EmptyConfig());
        return;
      }
      var parsed := parse(substituted.value);
      if parsed.Failure? {
        liveConfig := Some(EmptyConfig());
        return;
      }
      liveConfig := parsed.value;
    }

    /**
     * `loadCommands()`: constants, then config substituted with those
     * constants, then one registration of the live commands followed by the
     * local ones.
     */
    method LoadCommands(constantsFile: FileRead, parseConstants: string -> Result<Value, JsError>,
                        configFile: FileRead, parseConfig: string -> Result<Option<LiveConfig>, JsError>,
                        live: seq<Command>, local: seq<Command>)
      modifies this
      ensures fresh(liveConstants)
      ensures liveConstants.root == ConstantsAfterConfig(LoadedConstants(constantsFile, parseConstants), configFile)
      ensures liveConfig == LoadedConfig(LoadedConstants(constantsFile, parseConstants), configFile, parseConfig)
      ensures registrations == old(registrations) + [Registration(TargetGuild(), Registered(live + local))]
    {
      LoadConstants(constantsFile, parseConstants);
      LoadConfig(configFile, parseConfig);
      RegisterCommands(live + local);
    }

    /**
     * The command branch of `interactionCreate`: the permission rule for the
     * command (and subcommand) is checked first; a refused slash command gets
     * the refusal reply and an autocomplete request nothing.  Otherwise the
     * local command class is used when there is one, and only then the live
     * one.  Reading the rules of a config that is `undefined` or `null`
     * throws, and the handler's `catch` takes over.
     */
    method HandleInteraction(kind: InteractionKind, commandName: string, sub: Option<string>, member: Option<Member>,
                             resolveLocal: string -> Option<string>,
                             resolveLive: (string, Option<string>) -> Option<string>)
      returns (outcome: Outcome)
      ensures kind == OtherInteraction ==> outcome == Ignored
      ensures kind != OtherInteraction && liveConfig.None? ==> outcome == Thrown(kind)
      ensures kind != OtherInteraction && liveConfig.Some? && RuleKey(commandName, sub) in liveConfig.value.permissions &&
              !HasPermission(Some(liveConfig.value.permissions[RuleKey(commandName, sub)]), member) ==>
                outcome == Refused(kind == SlashCommand)
      ensures kind != OtherInteraction && liveConfig.Some? &&
              (RuleKey(commandName, sub) !in liveConfig.value.permissions ||
               HasPermission(Some(liveConfig.value.permissions[RuleKey(commandName, sub)]), member)) ==>
                outcome == (if resolveLocal(commandName).Some? then Dispatched(kind, resolveLocal(commandName).value)
                            else if resolveLive(commandName, sub).Some? then Dispatched(kind, resolveLive(commandName, sub).value)
                            else Unresolved)
    {
      if kind == OtherInteraction {
        return Ignored;
      }
      if liveConfig.None? {
        return Thrown(kind);
      }
      var key := RuleKey(commandName, sub);
      if key in liveConfig.value.permissions {
        var allowed := HasPermission(Some(liveConfig.value.permissions[key]), member);
        if !allowed {
          return Refused(kind == SlashCommand);
        }
      }
      var handler := resolveLocal(commandName);
      if handler.None? {
        handler := resolveLive(commandName, sub);
      }
      if handler.None? {
        return Unresolved;
      }
      return Dispatched(kind, handler.value);
    }
  }

  // ---------------------------------------------------------------------------
  // Properties of the loaders and of the rule key.

  /** With no constants the config text is substituted with `{"@ENCODED": {}}` and so parsed as written. */
  lemma ConfigWithoutConstants(t: string, parse: string -> Result<Option<LiveConfig>, JsError>)
    ensures LoadedConfig(Obj([]), Contents(t), parse) == (if parse(t).Success? then parse(t).value else Some(EmptyConfig()))
  {
    var empty := Obj([]);
    assert UrlEncoded(empty) == Success(empty);
    assert Put([], "@ENCODED", empty) == [("@ENCODED", empty)];
    var tree := Obj([("@ENCODED", empty)]);
    assert WithEncoded(empty) == Success(tree);
    assert FieldLeaves([], tree, 1) == FieldLeaves([], tree, 0) + PropertyLeaves([], "@ENCODED", empty);
    assert LeavesOf([], tree) == [];
    assert Substitute(empty, t) == Success(t);
  }

  /** Constants that are not an object, or that hold a null, leave the config at `{}`. */
  lemma ConfigEmptyOnBadConstants(constants: Value, file: FileRead, parse: string -> Result<Option<LiveConfig>, JsError>)
    requires !constants.Obj? || HasNull(constants)
    ensures LoadedConfig(constants, file, parse) == Some(EmptyConfig())
  {
    if file.Contents? {
      SubstituteFails(constants, file.text);
    }
  }

  /**
   * A config other than `{}`, the absent one included, is only ever taken
   * from an existing, readable file whose substituted text parses.
   */
  lemma ConfigOnlyFromParsedText(constants: Value, file: FileRead, parse: string -> Result<Option<LiveConfig>, JsError>)
    requires LoadedConfig(constants, file, parse) != Some(EmptyConfig())
    ensures file.Contents? && constants.Obj? && !HasNull(constants)
    ensures Substitute(constants, file.text).Success?
    ensures parse(Substitute(constants, file.text).value) == Success(LoadedConfig(constants, file, parse))
  {
    if file.Contents? {
      SubstituteFails(constants, file.text);
    }
  }

  /**
   * The config is left `undefined` or `null` exactly when the file exists,
   * substitution succeeds and the substituted document loads as nothing.
   */
  lemma AbsentConfigFromEmptyDocument(constants: Value, file: FileRead, parse: string -> Result<Option<LiveConfig>, JsError>)
    ensures LoadedConfig(constants, file, parse).None? <==>
      file.Contents? && Substitute(constants, file.text).Success? &&
      parse(Substitute(constants, file.text).value) == Success(None)
  {
  }

  lemma SeparatedNamesEqual(n1: string, a: string, n2: string, b: string)
    requires '/' !in n1 && '/' !in n2
    requires n1 + "/" + a == n2 + "/" + b
    ensures n1 == n2 && a == b
  {
    var s := n1 + "/" + a;
    assert forall i :: 0 <= i < |n1| ==> s[i] == n1[i];
    assert forall i :: 0 <= i < |n2| ==> s[i] == n2[i];
    assert s[|n1|] == '/' && s[|n2|] == '/';
    assert |n1| == |n2|;
    assert n1 == s[..|n1|] == n2;
    assert a == s[|n1| + 1..] == b;
  }

  /** A rule key holds a separator exactly when it names a subcommand. */
  lemma RuleKeySeparator(n: string, sub: Option<string>)
    requires '/' !in n
    ensures '/' in RuleKey(n, sub) <==> SubOrEmpty(sub) != ""
  {
    if SubOrEmpty(sub) != "" {
      assert RuleKey(n, sub)[|n|] == '/';
    }
  }

  /**
   * For command names without a separator, a rule key names exactly one
   * command and subcommand: a rule for a bare command does not apply to its
   * subcommands, nor the other way round.
   */
  lemma RuleKeyInjective(n1: string, s1: Option<string>, n2: string, s2: Option<string>)
    requires '/' !in n1 && '/' !in n2
    requires RuleKey(n1, s1) == RuleKey(n2, s2)
    ensures n1 == n2 && SubOrEmpty(s1) == SubOrEmpty(s2)
  {
    RuleKeySeparator(n1, s1);
    RuleKeySeparator(n2, s2);
    if SubOrEmpty(s1) != "" && SubOrEmpty(s2) != "" {
      SeparatedNamesEqual(n1, s1.value, n2, s2.value);
    }
  }
}
