/** The per-file rename rule of modify_filename: argument validation, then the
    fixed pipeline extension -> regex -> prefix -> suffix that computes the new name. */
module RenameRule {
  import opened Failures
  import opened PathNames

  /** Characters no rule argument may contain (FORBIDDEN_CHARACTERS). */
  const ForbiddenCharacters: string := "<>:\"/\\|?*"

  /** The old-extension value that matches every extension (ALL). */
  const AllExtensions: string := "ALL"

  /** The six optional arguments of modify_filename. */
  datatype Rule = Rule(
    prefix: Option<string>,
    suffix: Option<string>,
    extold: Option<string>,
    extnew: Option<string>,
    regex: Option<string>,
    sub: Option<string>)

  /** The rule with every argument left out. */
  const NoRule: Rule := Rule(None, None, None, None, None, None)

  /** What the renamer takes from the Python runtime: whether one character is
      printable (str.isprintable, character by character) and re.sub(pattern, repl, string). */
  datatype Env = Env(printable: char -> bool, reSub: (string, string, string) -> string)

  /** An argument that passes the character check. */
  predicate Allowed(arg: string, env: Env) {
    forall c :: c in arg ==> env.printable(c) && c !in ForbiddenCharacters
  }

  /** The arguments that are character-checked, in the order they are checked
      (regex is not among them). */
  function CheckedArguments(rule: Rule): (args: seq<Option<string>>)
    ensures |args| == 5
  {
    [rule.prefix, rule.suffix, rule.extold, rule.extnew, rule.sub]
  }

  /** The first given argument that fails the character check. */
  function FirstForbidden(args: seq<Option<string>>, env: Env): (bad: Option<string>)
    ensures bad.None? <==> forall i :: 0 <= i < |args| && args[i].Some? ==> Allowed(args[i].value, env)
    ensures bad.Some? ==> exists i :: 0 <= i < |args| && args[i] == bad && !Allowed(bad.value, env)
                                  && forall j :: 0 <= j < i && args[j].Some? ==> Allowed(args[j].value, env)
  {
    if args == [] then None
    else if args[0].Some? && !Allowed(args[0].value, env) then args[0]
    else
      var rest := FirstForbidden(args[1..], env);
      if rest.Some? then
        ghost var i :| 0 <= i < |args[1..]| && args[1..][i] == rest && !Allowed(rest.value, env)
                       && forall j :: 0 <= j < i && args[1..][j].Some? ==> Allowed(args[1..][j].value, env);
        assert args[i + 1] == rest;
        rest
      else
        rest
  }

  /** Every given checked argument passes the character check. */
  predicate CharactersAllowed(rule: Rule, env: Env) {
    forall i :: 0 <= i < 5 && CheckedArguments(rule)[i].Some? ==> Allowed(CheckedArguments(rule)[i].value, env)
  }

  /** A rule modify_filename accepts: its characters are allowed and both rule
      pairs are complete. */
  predicate Valid(rule: Rule, env: Env) {
    && CharactersAllowed(rule, env)
    && rule.extold.Some? == rule.extnew.Some?
    && rule.regex.Some? == rule.sub.Some?
  }

  /** The exception the argument checks raise, if any: the character check on
      every argument first, then the extension pair, then the regex pair. */
  function Validate(rule: Rule, env: Env): (err: Option<Error>)
    ensures err.None? <==> Valid(rule, env)
    ensures err.Some? && err.value.ValueError? <==> !CharactersAllowed(rule, env)
    ensures err.Some? && err.value.ValueError? ==>
              exists i :: 0 <= i < 5 && CheckedArguments(rule)[i] == Some(err.value.argument)
                       && !Allowed(err.value.argument, env)
                       && forall j :: 0 <= j < i && CheckedArguments(rule)[j].Some? ==> Allowed(CheckedArguments(rule)[j].value, env)
    ensures err == Some(TypeError("extnew")) <==>
              CharactersAllowed(rule, env) && rule.extold.Some? && rule.extnew.None?
    ensures err == Some(TypeError("extold")) <==>
              CharactersAllowed(rule, env) && rule.extold.None? && rule.extnew.Some?
    ensures err == Some(TypeError("sub")) <==>
              CharactersAllowed(rule, env) && rule.extold.Some? == rule.extnew.Some? && rule.regex.Some? && rule.sub.None?
    ensures err == Some(TypeError("regex")) <==>
              CharactersAllowed(rule, env) && rule.extold.Some? == rule.extnew.Some? && rule.regex.None? && rule.sub.Some?
  {
    match FirstForbidden(CheckedArguments(rule), env)
    case Some(arg) => Some(ValueError(arg))
    case None =>
      if rule.extold.Some? != rule.extnew.Some? then
        Some(TypeError(if rule.extold.Some? then "extnew" else "extold"))
      else if rule.regex.Some? != rule.sub.Some? then
        Some(TypeError(if rule.regex.Some? then "sub" else "regex"))
      else
        None
  }

  /** Step 1: when both extensions are given and non-empty, their dots are
      removed, and a name whose extension is the old one (or any name, for ALL)
      gets the new extension after its stem. */
  function ReplaceExtension(name: string, extold: Option<string>, extnew: Option<string>): string {
    if extold.Some? && extold.value != "" && extnew.Some? && extnew.value != "" then
      var oldExt, newExt := RemoveDots(extold.value), RemoveDots(extnew.value);
      if oldExt == AllExtensions || Suffix(name) == "." + oldExt then Stem(name) + "." + newExt else name
    else
      name
  }

  /** Step 2: re.sub over the whole current name, when both halves are given. */
  function SubstituteRegex(name: string, regex: Option<string>, sub: Option<string>, env: Env): string {
    if regex.Some? && sub.Some? then env.reSub(regex.value, sub.value, name) else name
  }

  /** Step 3: a non-empty prefix goes before the whole current name. */
  function InsertPrefix(name: string, prefix: Option<string>): string {
    if prefix.Some? && prefix.value != "" then prefix.value + name else name
  }

  /** Step 4: a non-empty suffix goes between the stem and the extension of the current name. */
  function InsertSuffix(name: string, suffix: Option<string>): string {
    if suffix.Some? && suffix.value != "" then Stem(name) + suffix.value + Suffix(name) else name
  }

  /** The four steps, each applied to the output of the one before. */
  function Transform(name: string, rule: Rule, env: Env): string {
    var afterExtension := ReplaceExtension(name, rule.extold, rule.extnew);
    var afterRegex := SubstituteRegex(afterExtension, rule.regex, rule.sub, env);
    var afterPrefix := InsertPrefix(afterRegex, rule.prefix);
    InsertSuffix(afterPrefix, rule.suffix)
  }

  /** The name modify_filename gives a file, or the exception it raises first. */
  function NewName(name: string, rule: Rule, env: Env): (r: Result<string>)
    ensures r.Ok? <==> Valid(rule, env)
    ensures r.Err? ==> Validate(rule, env) == Some(r.error)
    ensures r.Ok? ==> r.value == Transform(name, rule, env)
  {
    match Validate(rule, env)
    case Some(e) => Err(e)
    case None => Ok(Transform(name, rule, env))
  }

  /** With both extensions given and non-empty, a name whose extension is the
      dot-free old one (or any name, for ALL) becomes its stem, a dot and the
      dot-free new extension; any other name is kept. A new extension that is
      only dots leaves the name ending in a dot, so it has no extension. */
  lemma ExtensionStep(name: string, extold: string, extnew: string)
    requires name != [] && extold != "" && extnew != ""
    ensures var r := ReplaceExtension(name, Some(extold), Some(extnew));
            if RemoveDots(extold) == AllExtensions || Suffix(name) == "." + RemoveDots(extold)
            then r == Stem(name) + "." + RemoveDots(extnew)
            else r == name
    ensures var r := ReplaceExtension(name, Some(extold), Some(extnew));
            (RemoveDots(extold) == AllExtensions || Suffix(name) == "." + RemoveDots(extold)) ==>
              if RemoveDots(extnew) != "" then Stem(r) == Stem(name) && Suffix(r) == "." + RemoveDots(extnew)
              else Stem(r) == r && Suffix(r) == ""
  {
    var newExt := RemoveDots(extnew);
    if newExt != "" {
      SplitAtLastDot(Stem(name), newExt);
    } else {
      var r := Stem(name) + "." + newExt;
      assert RFind(r, '.') == |r| - 1;
    }
  }

  /** Dots are removed before the comparison with ALL, so "A.LL" and ".ALL"
      also match every extension. */
  lemma DottedAllMatchesEverything(name: string, extnew: string)
    requires extnew != ""
    ensures ReplaceExtension(name, Some("A.LL"), Some(extnew)) == Stem(name) + "." + RemoveDots(extnew)
    ensures ReplaceExtension(name, Some(".ALL"), Some(extnew)) == Stem(name) + "." + RemoveDots(extnew)
  {
    DottedAllRemoved();
    MatchesEverything(name, "A.LL", extnew);
    AllDotRemoved();
    MatchesEverything(name, ".ALL", extnew);
  }

  /** Any old extension that is ALL once its dots are removed replaces every extension. */
  lemma MatchesEverything(name: string, extold: string, extnew: string)
    requires extold != "" && extnew != "" && RemoveDots(extold) == AllExtensions
    ensures ReplaceExtension(name, Some(extold), Some(extnew)) == Stem(name) + "." + RemoveDots(extnew)
  {
  }

  lemma DottedAllRemoved()
    ensures RemoveDots("A.LL") == AllExtensions
  {
    var tail := ".LL";
    assert "A.LL"[0] == 'A' && "A.LL"[1..] == tail;
    assert tail[0] == '.' && tail[1..] == "LL";
    assert '.' !in "LL";
    assert RemoveDots(tail) == "LL";
    assert ['A'] + "LL" == AllExtensions;
  }

  lemma AllDotRemoved()
    ensures RemoveDots(".ALL") == AllExtensions
  {
    assert ".ALL"[0] == '.' && ".ALL"[1..] == AllExtensions;
    assert '.' !in AllExtensions;
  }

  /** Regrouping the concatenations around the new extension's dot. */
  lemma Regroup(a: string, b: string, c: string)
    ensures a + (b + "." + c) == (a + b) + "." + c
    ensures (a + b) + ("." + c) == a + b + "." + c
  {
  }

  /** Prefix, suffix and ALL -> extnew together: the extension is replaced first,
      the prefix goes before the whole name and the suffix lands before the new extension. */
  lemma ComposedRule(name: string, prefix: string, suffix: string, extnew: string, env: Env)
    requires name != [] && prefix != "" && suffix != "" && RemoveDots(extnew) != ""
    ensures Transform(name, Rule(Some(prefix), Some(suffix), Some(AllExtensions), Some(extnew), None, None), env)
            == prefix + Stem(name) + suffix + "." + RemoveDots(extnew)
  {
    var rule := Rule(Some(prefix), Some(suffix), Some(AllExtensions), Some(extnew), None, None);
    var stem, newExt := Stem(name), RemoveDots(extnew);
    assert RemoveDots(AllExtensions) == AllExtensions by { assert '.' !in AllExtensions; }
    MatchesEverything(name, AllExtensions, extnew);
    WithoutRegex(name, rule, env);
    Regroup(prefix, stem, newExt);
    SuffixBeforeNewExtension(prefix + stem, suffix, newExt);
  }

  /** Without a regex pair the pipeline is the extension step, then the prefix, then the suffix. */
  lemma WithoutRegex(name: string, rule: Rule, env: Env)
    requires rule.regex.None?
    ensures Transform(name, rule, env)
            == InsertSuffix(InsertPrefix(ReplaceExtension(name, rule.extold, rule.extnew), rule.prefix), rule.suffix)
  {
  }

  /** A suffix put into a name that ends in a dot-free extension lands just before that extension's dot. */
  lemma SuffixBeforeNewExtension(stem: string, suffix: string, ext: string)
    requires stem != [] && ext != [] && '.' !in ext
    ensures InsertSuffix(stem + "." + ext, Some(suffix)) == stem + suffix + "." + ext
  {
    SplitAtLastDot(stem, ext);
    Regroup(stem, suffix, ext);
  }

  /** The composed rule on "a.txt" gives "PREFIXaSUFFIX.EXT". */
  lemma ComposedRuleExample(env: Env)
    ensures Transform("a.txt", Rule(Some("PREFIX"), Some("SUFFIX"), Some(AllExtensions), Some("EXT"), None, None), env)
            == "PREFIXaSUFFIX.EXT"
  {
    assert "a.txt" == "a" + "." + "txt";
    SplitAtLastDot("a", "txt");
    assert RemoveDots("EXT") == "EXT" by { assert '.' !in "EXT"; }
    ComposedRule("a.txt", "PREFIX", "SUFFIX", "EXT", env);
    Spelled();
  }

  /** The concatenation the composed rule spells out, as one literal. */
  lemma Spelled()
    ensures "PREFIX" + "a" + "SUFFIX" + "." + "EXT" == "PREFIXaSUFFIX.EXT"
  {
  }

  /** A prefix alone goes before the whole name. */
  lemma PrefixOnly(name: string, prefix: string, env: Env)
    ensures Transform(name, Rule(Some(prefix), None, None, None, None, None), env) == prefix + name
  {
  }

  /** A suffix alone goes between the stem and the extension; when it is
      dot-free and the name does not end in a dot, it lengthens the stem and
      the extension is kept. */
  lemma SuffixOnly(name: string, suffix: string, env: Env)
    ensures var r := Transform(name, Rule(None, Some(suffix), None, None, None, None), env);
            r == Stem(name) + suffix + Suffix(name)
    ensures var r := Transform(name, Rule(None, Some(suffix), None, None, None, None), env);
            name != [] && name[|name| - 1] != '.' && '.' !in suffix ==>
              Stem(r) == Stem(name) + suffix && Suffix(r) == Suffix(name)
  {
    var r := Transform(name, Rule(None, Some(suffix), None, None, None, None), env);
    assert r == InsertSuffix(name, Some(suffix));
    if name != [] && name[|name| - 1] != '.' && '.' !in suffix {
      InsertionKeepsSuffix(name, suffix);
    }
  }

  /** Absent or empty prefix, suffix and extensions, with no regex pair, leave
      every name as it is; the rule is valid whenever the extension pair is complete. */
  lemma NoOpRule(name: string, rule: Rule, env: Env)
    requires rule.prefix in {None, Some("")} && rule.suffix in {None, Some("")}
    requires rule.extold in {None, Some("")} && rule.extnew in {None, Some("")}
    requires rule.regex.None? && rule.sub.None?
    requires rule.extold.Some? == rule.extnew.Some?
    ensures NewName(name, rule, env) == Ok(name)
  {
    assert CharactersAllowed(rule, env);
  }

  /** A character that is forbidden or not printable, in any checked argument,
      makes modify_filename raise ValueError, whatever else the rule holds. */
  lemma ForbiddenCharacterRaises(name: string, rule: Rule, env: Env, i: nat, c: char)
    requires i < 5 && CheckedArguments(rule)[i].Some? && c in CheckedArguments(rule)[i].value
    requires c in ForbiddenCharacters || !env.printable(c)
    ensures NewName(name, rule, env).Err? && NewName(name, rule, env).error.ValueError?
  {
    assert !Allowed(CheckedArguments(rule)[i].value, env);
  }

  /** The regex is never character-checked: a regex pair is valid whatever the
      pattern holds, as long as the replacement passes. */
  lemma RegexNotChecked(pattern: string, sub: string, env: Env)
    requires Allowed(sub, env)
    ensures Valid(Rule(None, None, None, None, Some(pattern), Some(sub)), env)
  {
  }
}
