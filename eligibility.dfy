/** Deciding, once per build, whether style injection runs (src/index.ts, the
    `options` hook). The decision reads the resolved build configuration and the
    bundler's version string; every check runs, none stops the others, and each
    check that fires adds one message. Printing the messages is not modelled. */
module Eligibility {
  import opened Wrappers

  /** The part of the resolved build configuration the plugin reads.
      `lib` and `ssr` are the truthiness of `build.lib` and `build.ssr`;
      `outputPreserveModules` holds, for each entry of `[build.rollupOptions.output].flat()`,
      its `preserveModules` value (None when the entry or the field is absent or not a
      boolean); `legacyPreserveModules` is `build.rollupOptions.preserveModules`;
      `sourcemap` is the truthiness of `build.sourcemap`. */
  datatype ResolvedConfig = ResolvedConfig(
    command: string,
    lib: bool,
    outputPreserveModules: seq<Option<bool>>,
    legacyPreserveModules: Option<bool>,
    ssr: bool,
    ssrEmitAssets: Option<bool>,
    sourcemap: bool)

  /** The outcome of the hook: whether to skip injection, and the messages to print. */
  datatype Verdict = Verdict(skip: bool, messages: seq<string>)

  const NotEligibleMessage: string :=
    "Current is not in library mode or building process, skip code injection."

  const SsrEmitAssetsMessage: string :=
    "`config.build.ssrEmitAssets` is set to `true` by the plugin internally in library mode, "
    + "but it seems to be `false` now. This may cause style code injection to fail on SSR, "
    + "please check the configuration to prevent this option from being modified."

  /** The warning for a `preserveModules` option found at `optionPath`. */
  function PreserveModulesWarning(optionPath: string): (msg: string)
    ensures |msg| == |optionPath| + 132
    ensures msg[..6] == "When `" && msg[6..6 + |optionPath|] == optionPath
  {
    "When `" + optionPath + "` is `true`, "
    + "the association between chunk file and its css references will lose, "
    + "so the style code injection will be skipped."
  }

  const OutputPreserveModulesMessage: string := PreserveModulesWarning("rollupOptions.output.preserveModules")
  const LegacyPreserveModulesMessage: string := PreserveModulesWarning("rollupOptions.preserveModules")

  // ---- parseInt --------------------------------------------------------------------

  /** The white space JavaScript's `parseInt` skips: the ASCII spaces and line breaks,
      no-break space, the byte-order mark and the two Unicode line separators. */
  predicate IsJsWhitespace(c: char) {
    c == ' ' || c == '\t' || c == '\n' || c == '\U{B}' || c == '\U{C}' || c == '\r'
    || c == '\U{A0}' || c == '\U{FEFF}' || c == '\U{2028}' || c == '\U{2029}'
  }

  function TrimStart(s: string): (r: string)
    ensures |r| <= |s| && r == s[|s| - |r|..]
    ensures r != [] ==> !IsJsWhitespace(r[0])
  {
    if s != [] && IsJsWhitespace(s[0]) then TrimStart(s[1..]) else s
  }

  /** The value of a digit character in any radix up to 36; 36 for anything else. */
  function DigitValue(c: char): (d: nat)
    ensures d <= 36
  {
    if '0' <= c <= '9' then (c - '0') as nat
    else if 'a' <= c <= 'z' then (c - 'a') as nat + 10
    else if 'A' <= c <= 'Z' then (c - 'A') as nat + 10
    else 36
  }

  predicate IsDigit(c: char, radix: nat) {
    DigitValue(c) < radix
  }

  /** A decimal digit is one of `0` to `9`, and so not white space. */
  lemma DecimalDigit(c: char)
    requires IsDigit(c, 10)
    ensures '0' <= c <= '9' && !IsJsWhitespace(c)
  {
    assert '0' <= c <= '9';
  }

  /** The longest prefix of `s` made of digits of `radix`. */
  function LeadingDigits(s: string, radix: nat): (ds: string)
    ensures |ds| <= |s| && ds == s[..|ds|]
    ensures forall i :: 0 <= i < |ds| ==> IsDigit(ds[i], radix)
    ensures |ds| < |s| ==> !IsDigit(s[|ds|], radix)
  {
    if s != [] && IsDigit(s[0], radix) then [s[0]] + LeadingDigits(s[1..], radix) else []
  }

  /** The number a string of digits denotes, most significant digit first. */
  function DigitsValue(ds: string, radix: nat): nat {
    if ds == [] then 0
    else DigitsValue(ds[..|ds| - 1], radix) * radix + DigitValue(ds[|ds| - 1])
  }

  /** The magnitude part of `parseInt`, after the sign: `0x`/`0X` selects hexadecimal,
      then the longest run of digits is read and the rest ignored; None when there is
      no digit at all. */
  function ParseMagnitude(u: string): Option<nat> {
    var hex := |u| >= 2 && u[0] == '0' && (u[1] == 'x' || u[1] == 'X');
    var radix := if hex then 16 else 10;
    var ds := LeadingDigits(if hex then u[2..] else u, radix);
    if ds == [] then None else Some(DigitsValue(ds, radix))
  }

  /** JavaScript's `parseInt(s)` without a radix: leading white space is skipped, then an
      optional sign is read before the magnitude. None stands for `NaN`. */
  function ParseInt(s: string): Option<int> {
    var t := TrimStart(s);
    if t != [] && t[0] == '-' then
      match ParseMagnitude(t[1..])
      case Some(m) => Some(-(m as int))
      case None => None
    else if t != [] && t[0] == '+' then
      match ParseMagnitude(t[1..])
      case Some(m) => Some(m)
      case None => None
    else
      match ParseMagnitude(t)
      case Some(m) => Some(m)
      case None => None
  }

  /** `parseInt(rollupVersion) < 4`; a comparison with `NaN` is false. */
  predicate RollupMajorBelow4(rollupVersion: string) {
    match ParseInt(rollupVersion)
    case Some(n) => n < 4
    case None => false
  }

  /** A version string `<major>.<rest>` parses to its major number. */
  lemma ParseIntOfVersion(major: string, rest: string)
    requires |major| > 0 && forall i :: 0 <= i < |major| ==> IsDigit(major[i], 10)
    requires rest == [] || rest[0] == '.'
    ensures ParseInt(major + rest) == Some(DigitsValue(major, 10) as int)
  {
    var s := major + rest;
    assert s[0] == major[0];
    DecimalDigit(s[0]);
    assert TrimStart(s) == s;
    assert |s| >= 2 ==> s[1] != 'x' && s[1] != 'X' by {
      if |s| >= 2 {
        if |major| >= 2 { assert s[1] == major[1]; } else { assert s[1] == rest[0]; }
      }
    }
    LeadingDigitsOfPrefix(major, rest);
    assert !(|s| >= 2 && s[0] == '0' && (s[1] == 'x' || s[1] == 'X'));
    assert LeadingDigits(s, 10) == major;
    assert ParseMagnitude(s) == Some(DigitsValue(major, 10));
    assert s[0] != '-' && s[0] != '+';
  }

  lemma {:induction false} LeadingDigitsOfPrefix(major: string, rest: string)
    requires forall i :: 0 <= i < |major| ==> IsDigit(major[i], 10)
    requires rest == [] || rest[0] == '.'
    ensures LeadingDigits(major + rest, 10) == major
  {
    if major == [] {
      assert major + rest == rest;
    } else {
      assert (major + rest)[1..] == major[1..] + rest;
      LeadingDigitsOfPrefix(major[1..], rest);
    }
  }

  /** For a version string `<major>.<rest>`, the legacy check applies exactly when the
      major number is below 4. */
  lemma MajorBelow4OfVersion(major: string, rest: string)
    requires |major| > 0 && forall i :: 0 <= i < |major| ==> IsDigit(major[i], 10)
    requires rest == [] || rest[0] == '.'
    ensures RollupMajorBelow4(major + rest) <==> DigitsValue(major, 10) < 4
  {
    ParseIntOfVersion(major, rest);
  }

  /** Text that does not start with a decimal digit has no magnitude: it cannot start
      with `0x` either. */
  lemma NoLeadingDigitNoMagnitude(u: string)
    requires u == [] || !IsDigit(u[0], 10)
    ensures ParseMagnitude(u) == None
  {
    if u != [] {
      assert u[0] != '0';
      assert LeadingDigits(u, 10) == [];
    }
  }

  /** A version string without any decimal digit is `NaN` and never counts as below 4. */
  lemma UnparsableVersionIsNotBelow4(v: string)
    requires forall i :: 0 <= i < |v| ==> !IsDigit(v[i], 10)
    ensures ParseInt(v) == None
    ensures !RollupMajorBelow4(v)
  {
    var t := TrimStart(v);
    if t != [] && (t[0] == '-' || t[0] == '+') {
      assert |t| >= 2 ==> t[1] == v[|v| - |t| + 1];
      NoLeadingDigitNoMagnitude(t[1..]);
    } else {
      assert t != [] ==> t[0] == v[|v| - |t|];
      NoLeadingDigitNoMagnitude(t);
    }
  }

  // ---- the checks ------------------------------------------------------------------

  predicate NotLibraryBuild(config: ResolvedConfig) {
    !config.lib || config.command != "build"
  }

  /** `outputOptions.some(v => v?.preserveModules === true)` */
  predicate OutputPreservesModules(config: ResolvedConfig) {
    Some(true) in config.outputPreserveModules
  }

  predicate LegacyPreservesModules(config: ResolvedConfig, rollupVersion: string) {
    RollupMajorBelow4(rollupVersion) && config.legacyPreserveModules == Some(true)
  }

  /** `build.ssr && build.ssrEmitAssets === false` */
  predicate SsrAssetsDisabled(config: ResolvedConfig) {
    config.ssr && config.ssrEmitAssets == Some(false)
  }

  function MessageIf(condition: bool, message: string): seq<string> {
    if condition then [message] else []
  }

  /** The reference definition of the hook: the skip flag and the messages, in the order
      the checks run. */
  function Evaluate(config: ResolvedConfig, rollupVersion: string): Verdict {
    Verdict(
      NotLibraryBuild(config) || OutputPreservesModules(config) || LegacyPreservesModules(config, rollupVersion),
      MessageIf(NotLibraryBuild(config), NotEligibleMessage)
      + MessageIf(OutputPreservesModules(config), OutputPreserveModulesMessage)
      + MessageIf(LegacyPreservesModules(config, rollupVersion), LegacyPreserveModulesMessage)
      + MessageIf(SsrAssetsDisabled(config), SsrEmitAssetsMessage))
  }

  /** The four messages are different from one another. */
  lemma MessagesDistinct()
    ensures NotEligibleMessage != OutputPreserveModulesMessage
    ensures NotEligibleMessage != LegacyPreserveModulesMessage
    ensures NotEligibleMessage != SsrEmitAssetsMessage
    ensures OutputPreserveModulesMessage != LegacyPreserveModulesMessage
    ensures OutputPreserveModulesMessage != SsrEmitAssetsMessage
    ensures LegacyPreserveModulesMessage != SsrEmitAssetsMessage
  {
    assert |NotEligibleMessage| == 72;
    assert |OutputPreserveModulesMessage| == 168;
    assert |LegacyPreserveModulesMessage| == 161;
    assert |SsrEmitAssetsMessage| == 246;
  }

  /** Each check is reported exactly when it fires, whatever the other checks say:
      none of them short-circuits another. */
  lemma MessageIffCondition(config: ResolvedConfig, rollupVersion: string)
    ensures NotEligibleMessage in Evaluate(config, rollupVersion).messages <==> NotLibraryBuild(config)
    ensures OutputPreserveModulesMessage in Evaluate(config, rollupVersion).messages <==> OutputPreservesModules(config)
    ensures LegacyPreserveModulesMessage in Evaluate(config, rollupVersion).messages <==> LegacyPreservesModules(config, rollupVersion)
    ensures SsrEmitAssetsMessage in Evaluate(config, rollupVersion).messages <==> SsrAssetsDisabled(config)
  {
    MessagesDistinct();
  }

  /** Injection is skipped exactly when a message other than the SSR one is printed:
      the SSR drift warning alone never switches injection off. */
  lemma SkipIffBlockingMessage(config: ResolvedConfig, rollupVersion: string)
    ensures Evaluate(config, rollupVersion).skip
            <==> exists m :: m in Evaluate(config, rollupVersion).messages && m != SsrEmitAssetsMessage
  {
    MessagesDistinct();
    var v := Evaluate(config, rollupVersion);
    if v.skip {
      if NotLibraryBuild(config) {
        assert NotEligibleMessage in v.messages;
      } else if OutputPreservesModules(config) {
        assert OutputPreserveModulesMessage in v.messages;
      } else {
        assert LegacyPreserveModulesMessage in v.messages;
      }
    }
  }

  /** Changing only the SSR settings never changes the skip decision. */
  lemma SsrNeverSkips(config: ResolvedConfig, rollupVersion: string, ssr: bool, ssrEmitAssets: Option<bool>)
    ensures Evaluate(config.(ssr := ssr, ssrEmitAssets := ssrEmitAssets), rollupVersion).skip
            == Evaluate(config, rollupVersion).skip
  {
  }

  predicate NoRepeats(messages: seq<string>) {
    forall i, j :: 0 <= i < j < |messages| ==> messages[i] != messages[j]
  }

  /** Appending the message of a check keeps the list free of repeats as long as that
      message is not already in it. */
  lemma AppendMessage(messages: seq<string>, condition: bool, message: string)
    requires NoRepeats(messages)
    requires condition ==> message !in messages
    ensures NoRepeats(messages + MessageIf(condition, message))
    ensures |messages + MessageIf(condition, message)| == |messages| + if condition then 1 else 0
  {
    if condition {
      var longer := messages + [message];
      forall i, j | 0 <= i < j < |longer| ensures longer[i] != longer[j] {
        if j == |messages| {
          assert longer[i] == messages[i];
        }
      }
    }
  }

  /** One message per check that fires, and no message twice. */
  lemma MessageCount(config: ResolvedConfig, rollupVersion: string)
    ensures |Evaluate(config, rollupVersion).messages|
            == (if NotLibraryBuild(config) then 1 else 0)
               + (if OutputPreservesModules(config) then 1 else 0)
               + (if LegacyPreservesModules(config, rollupVersion) then 1 else 0)
               + (if SsrAssetsDisabled(config) then 1 else 0)
    ensures NoRepeats(Evaluate(config, rollupVersion).messages)
  {
    MessagesDistinct();
    var first := MessageIf(NotLibraryBuild(config), NotEligibleMessage);
    var second := first + MessageIf(OutputPreservesModules(config), OutputPreserveModulesMessage);
    var third := second + MessageIf(LegacyPreservesModules(config, rollupVersion), LegacyPreserveModulesMessage);
    AppendMessage([], NotLibraryBuild(config), NotEligibleMessage);
    assert [] + first == first;
    AppendMessage(first, OutputPreservesModules(config), OutputPreserveModulesMessage);
    AppendMessage(second, LegacyPreservesModules(config, rollupVersion), LegacyPreserveModulesMessage);
    AppendMessage(third, SsrAssetsDisabled(config), SsrEmitAssetsMessage);
  }

  /** A production library build with no `preserveModules` anywhere is eligible. */
  lemma LibraryBuildIsEligible(config: ResolvedConfig, rollupVersion: string)
    requires config.lib && config.command == "build"
    requires forall i :: 0 <= i < |config.outputPreserveModules| ==> config.outputPreserveModules[i] != Some(true)
    requires config.legacyPreserveModules != Some(true)
    ensures !Evaluate(config, rollupVersion).skip
  {
  }
}
