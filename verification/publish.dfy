/**
 The version-bump rule of `scripts/publish.js`: reading the requested bump
 from the `version=` argument, and the patch/minor/major arithmetic on a
 dotted `major.minor.patch` version. The file writes, git and npm commands
 and prompts around it are not modelled.
 */
module Publish {
  import opened Options
  import opened Text

  /** The script's `version` variable: `null` until an argument sets it, and
      `undefined` when the matching argument has no `=`. */
  datatype VersionArg = NoVersion | UndefinedVersion | VersionText(text: string)

  /** `const [key, value] = arg.split('=')`: the key is the text before the
      first `=`. */
  function ArgKey(arg: string): (r: string)
    ensures r <= arg && '=' !in r
    ensures |r| < |arg| ==> arg[|r|] == '='
  {
    SplitFirstPieces(arg, '=');
    Split(arg, '=')[0]
  }

  /** The value is the text between the first and the second `=` (later
      pieces of the split are discarded), or `undefined` when there is no `=`. */
  function ArgValue(arg: string): (r: VersionArg)
    ensures r != NoVersion
    ensures r == UndefinedVersion <==> '=' !in arg
    ensures r.VersionText? ==>
      && '=' !in r.text
      && ArgKey(arg) + "=" + r.text <= arg
      && (|ArgKey(arg)| + 1 + |r.text| < |arg| ==> arg[|ArgKey(arg)| + 1 + |r.text|] == '=')
  {
    SplitFirstPieces(arg, '=');
    var parts := Split(arg, '=');
    if |parts| > 1 then VersionText(parts[1]) else UndefinedVersion
  }

  /** How one argument splits: the key is the text before the first `=`, the
      value the text up to the next `=`, and an argument without `=` has an
      `undefined` value. */
  lemma ArgumentParts(key: string, value: string, tail: string)
    requires '=' !in key && '=' !in value
    ensures ArgKey(key + "=" + value) == key
    ensures ArgValue(key + "=" + value) == VersionText(value)
    ensures ArgValue(key + "=" + value + "=" + tail) == VersionText(value)
    ensures ArgKey(key) == key && ArgValue(key) == UndefinedVersion
  {
    SplitJoin([key, value], '=');
    assert Join([key, value], '=') == key + "=" + value;
    var rest := Split(tail, '=');
    SplitPrefix(key, "=" + value + "=" + tail, '=');
    assert key + "=" + value + "=" + tail == key + ("=" + value + "=" + tail);
    var s1 := "=" + value + "=" + tail;
    assert s1[0] == '=' && s1[1..] == value + ("=" + tail);
    SplitPrefix(value, "=" + tail, '=');
    assert ("=" + tail)[0] == '=' && ("=" + tail)[1..] == tail;
    SplitJoin([key], '=');
  }

  /** `version` is what the arguments request: `null` when no argument has
      key `version`, otherwise the value of the last one that has. */
  predicate LastVersionArg(args: seq<string>, version: VersionArg)
  {
    && (version == NoVersion <==> forall i :: 0 <= i < |args| ==> ArgKey(args[i]) != "version")
    && (version != NoVersion ==>
          exists i :: 0 <= i < |args| && ArgKey(args[i]) == "version" && version == ArgValue(args[i])
                      && forall j :: i < j < |args| ==> ArgKey(args[j]) != "version")
  }

  /** The arguments determine the requested version uniquely. */
  lemma LastVersionArgUnique(args: seq<string>, v1: VersionArg, v2: VersionArg)
    requires LastVersionArg(args, v1) && LastVersionArg(args, v2)
    ensures v1 == v2
  {
    if v1 != NoVersion {
      var i1 :| 0 <= i1 < |args| && ArgKey(args[i1]) == "version" && v1 == ArgValue(args[i1])
                && forall j :: i1 < j < |args| ==> ArgKey(args[j]) != "version";
      var i2 :| 0 <= i2 < |args| && ArgKey(args[i2]) == "version" && v2 == ArgValue(args[i2])
                && forall j :: i2 < j < |args| ==> ArgKey(args[j]) != "version";
      assert i1 == i2;
    }
  }

  /** The `forEach` over `process.argv`: every argument whose key is
      `version` overwrites the variable, so the last one wins. */
  method RequestedVersion(args: seq<string>) returns (version: VersionArg)
    ensures version == NoVersion <==> forall i :: 0 <= i < |args| ==> ArgKey(args[i]) != "version"
    ensures version != NoVersion ==>
      exists i :: 0 <= i < |args| && ArgKey(args[i]) == "version" && version == ArgValue(args[i])
                  && forall j :: i < j < |args| ==> ArgKey(args[j]) != "version"
  {
    version := NoVersion;
    var i := 0;
    while i < |args|
      invariant 0 <= i <= |args|
      invariant version == NoVersion <==> forall j :: 0 <= j < i ==> ArgKey(args[j]) != "version"
      invariant version != NoVersion ==>
        exists k :: 0 <= k < i && ArgKey(args[k]) == "version" && version == ArgValue(args[k])
                    && forall j :: k < j < i ==> ArgKey(args[j]) != "version"
    {
      var parts := Split(args[i], '=');
      var key := parts[0];
      var value := if |parts| > 1 then VersionText(parts[1]) else UndefinedVersion;
      if key == "version" {
        version := value;
      }
      i := i + 1;
    }
  }

  /** `currentVersion.split('.')[i]` where the template and `parseInt` see it:
      a missing component is `undefined`, which both render as "undefined". */
  function Component(current: string, i: nat): (r: string)
    ensures '.' !in r
    ensures i >= |Split(current, '.')| ==> r == "undefined"
    ensures WellFormedVersion(current) && i < 3 ==> IsNumeral(r)
  {
    var parts := Split(current, '.');
    if i < |parts| then parts[i] else "undefined"
  }

  /** `${parseInt(c) + 1}`: the successor in decimal, or "NaN" when `c` does
      not start with a digit. */
  function Increment(c: string): (r: string)
    ensures IsNumeral(c) ==> r == ShowNat(DigitsValue(c) + 1)
    ensures r == "NaN" <==> |c| == 0 || !IsDigit(c[0])
  {
    match ParseInt(c)
    case Some(n) => ShowNat(n + 1)
    case None => "NaN"
  }

  /** A component such as `3-beta` of a prerelease version: the numeral in
      front is incremented and the rest is dropped. */
  lemma IncrementIgnoresSuffix(c: string, suffix: string)
    requires IsNumeral(c)
    requires |suffix| == 0 || !IsDigit(suffix[0])
    ensures Increment(c + suffix) == ShowNat(DigitsValue(c) + 1)
  {
    ParseIntIgnoresSuffix(c, suffix);
  }

  /** The template `${major}.${minor}.${patch}`. */
  function Dotted(major: string, minor: string, patch: string): (r: string)
    ensures |r| == |major| + |minor| + |patch| + 2
    ensures '.' !in major && '.' !in minor && '.' !in patch ==> Split(r, '.') == [major, minor, patch]
  {
    var r := major + "." + minor + "." + patch;
    JoinThree(major, minor, patch, '.');
    if '.' !in major && '.' !in minor && '.' !in patch then
      SplitJoin([major, minor, patch], '.');
      r
    else r
  }

  /** The outcome of the `switch`: the new version, or `process.exit(code)`
      before anything is written. */
  datatype BumpOutcome = NewVersion(version: string) | Exit(code: int)

  const Patch: VersionArg := VersionText("patch")
  const Minor: VersionArg := VersionText("minor")
  const Major: VersionArg := VersionText("major")

  /** The `switch (version)`; the comparison is strict, so `undefined` is not
      `null` and reaches the default branch. */
  function BumpVersion(current: string, version: VersionArg): (r: BumpOutcome)
    ensures r.Exit? <==> version !in {Patch, Minor, Major, NoVersion}
    ensures r.Exit? ==> r.code == 1
    ensures version == NoVersion ==> r == NewVersion(current)
  {
    if version == Patch then
      NewVersion(Dotted(Component(current, 0), Component(current, 1), Increment(Component(current, 2))))
    else if version == Minor then
      NewVersion(Dotted(Component(current, 0), Increment(Component(current, 1)), "0"))
    else if version == Major then
      NewVersion(Dotted(Increment(Component(current, 0)), "0", "0"))
    else if version == NoVersion then
      NewVersion(current)
    else
      Exit(1)
  }

  /** A `major.minor.patch` version with three decimal numerals. */
  predicate WellFormedVersion(v: string)
  {
    var parts := Split(v, '.');
    |parts| == 3 && IsNumeral(parts[0]) && IsNumeral(parts[1]) && IsNumeral(parts[2])
  }

  /** The numeric value of a well-formed version's components. */
  function VersionNumbers(v: string): (nat, nat, nat)
    requires WellFormedVersion(v)
  {
    var parts := Split(v, '.');
    (DigitsValue(parts[0]), DigitsValue(parts[1]), DigitsValue(parts[2]))
  }

  /** A numeral contains no dot. */
  lemma NumeralHasNoDot(s: string)
    requires IsNumeral(s)
    ensures '.' !in s
  {
    assert forall i :: 0 <= i < |s| ==> s[i] != '.' by {
      forall i | 0 <= i < |s| ensures s[i] != '.' {
        assert IsDigit(s[i]);
      }
    }
  }

  /** Joining three pieces. */
  lemma JoinThree(a: string, b: string, c: string, sep: char)
    ensures Join([a, b, c], sep) == a + [sep] + b + [sep] + c
  {
    assert [a, b, c][1..] == [b, c];
    assert [b, c][1..] == [c];
    assert Join([b, c], sep) == b + [sep] + c;
  }

  /** The components of `major.minor.patch` are the three numerals, unchanged. */
  lemma ComponentsOfVersion(major: string, minor: string, patch: string)
    requires IsNumeral(major) && IsNumeral(minor) && IsNumeral(patch)
    ensures Split(Dotted(major, minor, patch), '.') == [major, minor, patch]
    ensures WellFormedVersion(Dotted(major, minor, patch))
    ensures forall i :: 0 <= i < 3 ==> Component(Dotted(major, minor, patch), i) == [major, minor, patch][i]
  {
    NumeralHasNoDot(major);
    NumeralHasNoDot(minor);
    NumeralHasNoDot(patch);
  }

  /** A well-formed version is the dotted form of its three components. */
  lemma VersionAsDotted(current: string)
    requires WellFormedVersion(current)
    ensures var parts := Split(current, '.');
      current == Dotted(parts[0], parts[1], parts[2])
  {
    var parts := Split(current, '.');
    JoinSplit(current, '.');
    assert parts == [parts[0], parts[1], parts[2]];
    JoinThree(parts[0], parts[1], parts[2], '.');
  }

  /** On a well-formed version the three bumps do what semantic versioning
      says: the bumped component goes up by one, the lower ones restart at
      zero, the higher ones are copied verbatim. */
  lemma BumpWellFormed(major: string, minor: string, patch: string)
    requires IsNumeral(major) && IsNumeral(minor) && IsNumeral(patch)
    ensures var current := Dotted(major, minor, patch);
      && BumpVersion(current, Patch) == NewVersion(Dotted(major, minor, ShowNat(DigitsValue(patch) + 1)))
      && BumpVersion(current, Minor) == NewVersion(Dotted(major, ShowNat(DigitsValue(minor) + 1), "0"))
      && BumpVersion(current, Major) == NewVersion(Dotted(ShowNat(DigitsValue(major) + 1), "0", "0"))
  {
    var current := Dotted(major, minor, patch);
    ComponentsOfVersion(major, minor, patch);
    assert Component(current, 0) == major;
    assert Component(current, 1) == minor;
    assert Component(current, 2) == patch;
  }

  /** A patch bump of a well-formed version is well-formed, with the patch
      number one higher and the others unchanged. */
  lemma BumpPatchKeepsWellFormed(current: string)
    requires WellFormedVersion(current)
    ensures BumpVersion(current, Patch).NewVersion?
    ensures var next := BumpVersion(current, Patch).version;
      && WellFormedVersion(next)
      && var (ma, mi, pa) := VersionNumbers(current);
         VersionNumbers(next) == (ma, mi, pa + 1)
  {
    var parts := Split(current, '.');
    VersionAsDotted(current);
    BumpWellFormed(parts[0], parts[1], parts[2]);
    ComponentsOfVersion(parts[0], parts[1], ShowNat(DigitsValue(parts[2]) + 1));
  }

  /** A minor bump of a well-formed version is well-formed, with the minor
      number one higher, the patch number 0 and the major number unchanged. */
  lemma BumpMinorKeepsWellFormed(current: string)
    requires WellFormedVersion(current)
    ensures BumpVersion(current, Minor).NewVersion?
    ensures var next := BumpVersion(current, Minor).version;
      && WellFormedVersion(next)
      && var (ma, mi, pa) := VersionNumbers(current);
         VersionNumbers(next) == (ma, mi + 1, 0)
  {
    var parts := Split(current, '.');
    VersionAsDotted(current);
    BumpWellFormed(parts[0], parts[1], parts[2]);
    var zero := "0";
    assert IsNumeral(zero) && DigitsValue(zero) == 0;
    ComponentsOfVersion(parts[0], ShowNat(DigitsValue(parts[1]) + 1), zero);
  }

  /** A major bump of a well-formed version is `(major + 1).0.0`, well-formed. */
  lemma BumpMajorKeepsWellFormed(current: string)
    requires WellFormedVersion(current)
    ensures BumpVersion(current, Major).NewVersion?
    ensures var next := BumpVersion(current, Major).version;
      && WellFormedVersion(next)
      && var (ma, mi, pa) := VersionNumbers(current);
         VersionNumbers(next) == (ma + 1, 0, 0)
  {
    var parts := Split(current, '.');
    VersionAsDotted(current);
    BumpWellFormed(parts[0], parts[1], parts[2]);
    var zero := "0";
    assert IsNumeral(zero) && DigitsValue(zero) == 0;
    ComponentsOfVersion(ShowNat(DigitsValue(parts[0]) + 1), zero, zero);
  }

  /** Bumping a well-formed version gives a well-formed version whose numbers
      are the old ones with the chosen component incremented and the lower
      ones reset, so the result can be bumped again. */
  lemma BumpKeepsWellFormed(current: string, version: VersionArg)
    requires WellFormedVersion(current)
    requires version in {Patch, Minor, Major}
    ensures BumpVersion(current, version).NewVersion?
    ensures var next := BumpVersion(current, version).version;
      && WellFormedVersion(next)
      && var (ma, mi, pa) := VersionNumbers(current);
         VersionNumbers(next) ==
           if version == Patch then (ma, mi, pa + 1)
           else if version == Minor then (ma, mi + 1, 0)
           else (ma + 1, 0, 0)
  {
    if version == Patch {
      BumpPatchKeepsWellFormed(current);
    } else if version == Minor {
      BumpMinorKeepsWellFormed(current);
    } else {
      BumpMajorKeepsWellFormed(current);
    }
  }

  /** 'skip' is advertised by the script's warning but is not a case of the
      switch, so it is rejected like any other unknown value, and so is an
      argument `version` without `=`. */
  lemma UnknownRequestsRejected(current: string, text: string)
    requires text !in {"patch", "minor", "major"}
    ensures BumpVersion(current, VersionText(text)) == Exit(1)
    ensures BumpVersion(current, VersionText("skip")) == Exit(1)
    ensures BumpVersion(current, UndefinedVersion) == Exit(1)
  {
  }

  /** The script from argument parsing to the new version: with no
      `version` argument the version is kept, and the script exits only when
      some `version` argument asked for something other than a bump. */
  method PlanVersion(args: seq<string>, current: string) returns (r: BumpOutcome)
    ensures exists v :: LastVersionArg(args, v) && r == BumpVersion(current, v)
    ensures (forall i :: 0 <= i < |args| ==> ArgKey(args[i]) != "version") ==> r == NewVersion(current)
    ensures r.Exit? ==> r.code == 1
    ensures r.Exit? ==>
      exists i :: 0 <= i < |args| && ArgKey(args[i]) == "version" && ArgValue(args[i]) !in {Patch, Minor, Major}
  {
    var version := RequestedVersion(args);
    r := BumpVersion(current, version);
    assert LastVersionArg(args, version);
  }

  /** A single argument `version=<value>` requests exactly that value, so
      with `PlanVersion`'s contract `version=patch` on a well-formed version
      plans the patch bump `BumpPatchKeepsWellFormed` describes. The key is a
      parameter fixed by `requires` rather than the literal "version" inside
      the argument, because a literal would make the verifier evaluate `Split`
      on the whole text eagerly. */
  lemma OneVersionArgument(key: string, value: string, v: VersionArg)
    requires key == "version" && '=' !in value
    requires LastVersionArg([key + "=" + value], v)
    ensures v == VersionText(value)
  {
    var args := [key + "=" + value];
    assert '=' !in key;
    ArgumentParts(key, value, "");
    assert ArgKey(args[0]) == "version" && ArgValue(args[0]) == VersionText(value);
    assert LastVersionArg(args, VersionText(value));
    LastVersionArgUnique(args, v, VersionText(value));
  }
}
