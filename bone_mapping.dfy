/** Bone names of Java-edition models rewritten for Bedrock
    (`src/boneMapping.js`): the mapping table, the camelCase to snake_case
    rewrite with its first-match pattern list, the validity pattern, the
    dotted hierarchy and the per-entity bone sets. Names are Dafny strings;
    the regular expressions of the source are written out as recursive
    scans. */
module BoneMapping {
  import opened JsStrings

  predicate IsLower(c: char) { 'a' <= c <= 'z' }
  predicate IsUpper(c: char) { 'A' <= c <= 'Z' }
  predicate IsDigit(c: char) { '0' <= c <= '9' }

  /** `[a-zA-Z0-9.]`, one segment character of a Bedrock bone name. */
  predicate IsSegmentChar(c: char) { IsLower(c) || IsUpper(c) || IsDigit(c) || c == '.' }

  predicate NoUpper(s: string)
  {
    forall i :: 0 <= i < |s| ==> !IsUpper(s[i])
  }

  /** `toLowerCase` on one ASCII character. */
  function ToLower(c: char): char
  {
    if IsUpper(c) then (c as int + 32) as char else c
  }

  function Lower(s: string): (r: string)
  {
    if s == [] then [] else [ToLower(s[0])] + Lower(s[1..])
  }

  /** Lowering keeps the length and leaves no upper-case letter; it is the
      identity on a string that has none. */
  lemma {:induction false} LowerNoUpper(s: string)
    ensures |Lower(s)| == |s| && NoUpper(Lower(s))
    ensures NoUpper(s) ==> Lower(s) == s
  {
    if s != [] {
      LowerNoUpper(s[1..]);
      assert Lower(s)[1..] == Lower(s[1..]);
    }
  }

  /** `.replace(/([a-z0-9])([A-Z])/g, '$1_$2')`: the scan resumes after
      each match. */
  function SplitLowerUpper(s: string): string
    decreases |s|
  {
    if |s| < 2 then s
    else if (IsLower(s[0]) || IsDigit(s[0])) && IsUpper(s[1]) then [s[0], '_', s[1]] + SplitLowerUpper(s[2..])
    else [s[0]] + SplitLowerUpper(s[1..])
  }

  /** An underscore between every lower-case letter or digit and a
      following upper-case letter. */
  function UnderscoreBeforeCapitals(s: string): string
    decreases |s|
  {
    if |s| < 2 then s
    else [s[0]] + (if (IsLower(s[0]) || IsDigit(s[0])) && IsUpper(s[1]) then "_" else "") + UnderscoreBeforeCapitals(s[1..])
  }

  lemma {:induction false} UnderscoreBeforeCapitalsStep(t: string)
    requires t != [] && !IsLower(t[0]) && !IsDigit(t[0])
    ensures UnderscoreBeforeCapitals(t) == [t[0]] + UnderscoreBeforeCapitals(t[1..])
  {
  }

  /** The scan that skips past each match still puts an underscore at every
      lower-to-upper boundary, because a match ends in a capital, which
      cannot start the next one. */
  lemma {:induction false} SplitLowerUpperEveryBoundary(s: string)
    ensures SplitLowerUpper(s) == UnderscoreBeforeCapitals(s)
    decreases |s|
  {
    if |s| >= 2 {
      if (IsLower(s[0]) || IsDigit(s[0])) && IsUpper(s[1]) {
        SplitLowerUpperEveryBoundary(s[2..]);
        UnderscoreBeforeCapitalsStep(s[1..]);
        assert s[1..][1..] == s[2..];
      } else {
        SplitLowerUpperEveryBoundary(s[1..]);
      }
    }
  }

  /** `.replace(/([A-Z])([A-Z][a-z])/g, '$1_$2')`, resuming after each
      match. */
  function SplitAcronym(s: string): string
    decreases |s|
  {
    if |s| < 3 then s
    else if IsUpper(s[0]) && IsUpper(s[1]) && IsLower(s[2]) then [s[0], '_', s[1], s[2]] + SplitAcronym(s[3..])
    else [s[0]] + SplitAcronym(s[1..])
  }

  /** An underscore before every capital that is followed by a lower-case
      letter and preceded by another capital. */
  function UnderscoreAfterAcronyms(s: string): string
    decreases |s|
  {
    if |s| < 3 then s
    else [s[0]] + (if IsUpper(s[0]) && IsUpper(s[1]) && IsLower(s[2]) then "_" else "") + UnderscoreAfterAcronyms(s[1..])
  }

  lemma {:induction false} UnderscoreAfterAcronymsStep(t: string)
    requires t != [] && !IsUpper(t[0])
    ensures UnderscoreAfterAcronyms(t) == [t[0]] + UnderscoreAfterAcronyms(t[1..])
  {
  }

  /** The skipping scan inserts at every such position: a match ends in a
      lower-case letter, so no match can start inside it. */
  lemma {:induction false} SplitAcronymEveryBoundary(s: string)
    ensures SplitAcronym(s) == UnderscoreAfterAcronyms(s)
    decreases |s|
  {
    if |s| >= 3 {
      if IsUpper(s[0]) && IsUpper(s[1]) && IsLower(s[2]) {
        SplitAcronymEveryBoundary(s[3..]);
        var t := s[1..];
        assert UnderscoreAfterAcronyms(t) == [t[0]] + UnderscoreAfterAcronyms(t[1..]);
        UnderscoreAfterAcronymsStep(t[1..]);
        assert t[1..][1..] == s[3..];
      } else {
        SplitAcronymEveryBoundary(s[1..]);
      }
    }
  }

  /** Both passes leave a string without capitals alone. */
  lemma {:induction false} SplitsNoUpper(s: string)
    requires NoUpper(s)
    ensures SplitLowerUpper(s) == s && SplitAcronym(s) == s
    decreases |s|
  {
    if |s| >= 1 {
      SplitsNoUpper(s[1..]);
    }
  }

  /** The camelCase to snake_case step of `transformBoneName`. */
  function SnakeCase(s: string): string
  {
    Lower(SplitAcronym(SplitLowerUpper(s)))
  }

  /** Where the pattern of a rewrite is anchored. */
  datatype Anchor = AtStart | AtEnd

  /** `{from, to}` with `from` a literal anchored at one end. */
  datatype Rule = Rule(anchor: Anchor, from: string, to: string)

  const Rules: seq<Rule> := [
    Rule(AtStart, "armor_stand", "armor_stand"),
    Rule(AtStart, "player_", "player."),
    Rule(AtStart, "entity_", "entity."),
    Rule(AtEnd, "left_arm", "left_arm"),
    Rule(AtEnd, "right_arm", "right_arm"),
    Rule(AtEnd, "left_leg", "left_leg"),
    Rule(AtEnd, "right_leg", "right_leg"),
    Rule(AtEnd, "head", "head"),
    Rule(AtEnd, "body", "body"),
    Rule(AtEnd, "tail", "tail"),
    Rule(AtEnd, "wing", "wing")
  ]

  /** `from.test(s)` */
  predicate Matches(rule: Rule, s: string)
  {
    match rule.anchor
    case AtStart => |rule.from| <= |s| && s[..|rule.from|] == rule.from
    case AtEnd => |rule.from| <= |s| && s[|s| - |rule.from|..] == rule.from
  }

  /** `s.replace(from, to)` for a rule that matches. */
  function Rewrite(rule: Rule, s: string): string
    requires Matches(rule, s)
  {
    match rule.anchor
    case AtStart => rule.to + s[|rule.from|..]
    case AtEnd => s[..|s| - |rule.from|] + rule.to
  }

  /** The first rule of `rules` that matches rewrites `s`; none leaves it. */
  function FirstMatch(rules: seq<Rule>, s: string): string
  {
    if rules == [] then s
    else if Matches(rules[0], s) then Rewrite(rules[0], s)
    else FirstMatch(rules[1..], s)
  }

  predicate HasPrefix(s: string, p: string)
  {
    |p| <= |s| && s[..|p|] == p
  }

  /** What the pattern list amounts to: only the `player_` and `entity_`
      prefixes change anything, turning their underscore into a dot. */
  function DotEntityPrefix(s: string): string
  {
    if HasPrefix(s, "player_") then "player." + s[7..]
    else if HasPrefix(s, "entity_") then "entity." + s[7..]
    else s
  }

  /** Every other rule rewrites what it matches to itself. */
  lemma {:induction false} IdentityRules(rules: seq<Rule>, s: string)
    requires forall i :: 0 <= i < |rules| ==> rules[i].from == rules[i].to
    ensures FirstMatch(rules, s) == s
  {
    if rules != [] {
      if Matches(rules[0], s) {
        if rules[0].anchor == AtStart {
          assert s == s[..|rules[0].from|] + s[|rules[0].from|..];
        } else {
          assert s == s[..|s| - |rules[0].from|] + s[|s| - |rules[0].from|..];
        }
      } else {
        IdentityRules(rules[1..], s);
      }
    }
  }

  /** The rules after the two entity prefixes change nothing. */
  lemma {:induction false} SuffixRulesIdentity(s: string)
    ensures FirstMatch(Rules[3..], s) == s
  {
    IdentityRules(Rules[3..], s);
  }

  /** A name that starts with `armor_stand` is left alone and starts with
      neither entity prefix. */
  lemma {:induction false} ArmorStandRule(s: string)
    requires Matches(Rules[0], s)
    ensures Rewrite(Rules[0], s) == s
    ensures !HasPrefix(s, "player_") && !HasPrefix(s, "entity_")
  {
    assert s == s[..11] + s[11..];
    assert s[0] == s[..11][0] == 'a';
  }

  /** At most one rewrite happens, the first match in list order, and it
      comes down to the two entity prefixes. */
  lemma {:induction false} RulesDotEntityPrefix(s: string)
    ensures FirstMatch(Rules, s) == DotEntityPrefix(s)
  {
    SuffixRulesIdentity(s);
    var r1, r2 := Rules[1..], Rules[2..];
    assert r1[0] == Rule(AtStart, "player_", "player.") && r1[1..] == r2;
    assert r2[0] == Rule(AtStart, "entity_", "entity.") && r2[1..] == Rules[3..];
    if Matches(Rules[0], s) {
      ArmorStandRule(s);
    } else {
      assert FirstMatch(Rules, s) == FirstMatch(r1, s);
      if !Matches(r1[0], s) {
        assert FirstMatch(r1, s) == FirstMatch(r2, s);
      }
    }
  }

  /** `transformBoneName` as a value. */
  function Transform(name: string): string
  {
    FirstMatch(Rules, SnakeCase(name))
  }

  /** `transformBoneName`: snake_case, lower case, then the first matching
      pattern. */
  method TransformBoneName(name: string) returns (r: string)
    ensures r == Transform(name)
    ensures r == DotEntityPrefix(SnakeCase(name))
  {
    r := SnakeCase(name);
    ghost var snake := r;
    var i := 0;
    while i < |Rules|
      invariant 0 <= i <= |Rules|
      invariant FirstMatch(Rules[i..], snake) == FirstMatch(Rules, snake)
      invariant r == snake
    {
      if Matches(Rules[i], r) {
        r := Rewrite(Rules[i], r);
        break;
      }
      assert Rules[i..][1..] == Rules[i + 1..];
      i := i + 1;
    }
    RulesDotEntityPrefix(snake);
  }

  /** The transformed name has no upper-case letter. */
  lemma {:induction false} TransformNoUpper(name: string)
    ensures NoUpper(Transform(name))
  {
    var t := SnakeCase(name);
    assert NoUpper(t) by {
      LowerNoUpper(SplitAcronym(SplitLowerUpper(name)));
    }
    var r := Transform(name);
    assert r == DotEntityPrefix(t) by {
      RulesDotEntityPrefix(t);
    }
    if HasPrefix(t, "player_") || HasPrefix(t, "entity_") {
      assert |r| == |t|;
      forall i | 0 <= i < |r|
        ensures !IsUpper(r[i])
      {
        if i >= 7 {
          assert r[i] == t[i];
        }
      }
    }
  }

  /** Transforming twice is transforming once. */
  lemma {:induction false} TransformIdempotent(name: string)
    ensures Transform(Transform(name)) == Transform(name)
  {
    var r := Transform(name);
    TransformNoUpper(name);
    SplitsNoUpper(r);
    LowerNoUpper(r);
    assert SnakeCase(r) == r;
    RulesDotEntityPrefix(r);
    RulesDotEntityPrefix(SnakeCase(name));
    var t := SnakeCase(name);
    if HasPrefix(t, "player_") || HasPrefix(t, "entity_") {
      assert r[6] == '.';
    }
  }

  /** The bone table; keys listed twice in the source carry the same value
      both times. */
  const BoneMappings: map<string, string> :=
map[
      "head" := "head", "body" := "body", "leftArm" := "left_arm",
      "rightArm" := "right_arm", "leftLeg" := "left_leg", "rightLeg" := "right_leg",
      "root" := "root", "base" := "base", "core" := "core",
      "main" := "main", "armorHead" := "armor_stand.head", "armorBody" := "armor_stand.body",
      "armorLeftArm" := "armor_stand.left_arm", "armorRightArm" := "armor_stand.right_arm", "armorLeftLeg" := "armor_stand.left_leg",
      "armorRightLeg" := "armor_stand.right_leg", "wing" := "wing", "tail" := "tail",
      "body2" := "body2", "tail2" := "tail2", "fin" := "fin",
      "fin2" := "fin2", "saddle" := "saddle", "mouth" := "mouth",
      "neck" := "neck", "mane" := "mane", "tailMain" := "tail_main",
      "tailTip" := "tail_tip", "whiskers" := "whiskers", "earLeft" := "ear_left",
      "earRight" := "ear_right", "carpet" := "carpet", "plank" := "plank",
      "bottom" := "bottom", "skull" := "skull", "head2" := "head2",
      "head3" := "head3", "bone" := "bone", "spine" := "spine",
      "wingTip" := "wing_tip", "cap" := "cap", "wingTipLeft" := "wing_tip_left",
      "wingTipRight" := "wing_tip_right", "trident" := "trident", "bushyTail" := "bushy_tail",
      "earInnerLeft" := "ear_inner_left", "earInnerRight" := "ear_inner_right", "stinger" := "stinger",
      "leftHorn" := "left_horn", "rightHorn" := "right_horn", "tentacle" := "tentacle",
      "tentacle2" := "tentacle2", "tentacle3" := "tentacle3", "tentacle4" := "tentacle4",
      "tentacle5" := "tentacle5", "tentacle6" := "tentacle6", "tentacle7" := "tentacle7",
      "tentacle8" := "tentacle8", "leftWing" := "left_wing", "rightWing" := "right_wing",
      "leftLegFront" := "left_leg_front", "rightLegFront" := "right_leg_front", "leftLegBack" := "left_leg_back",
      "rightLegBack" := "right_leg_back", "throat" := "throat", "leg1" := "leg1",
      "leg2" := "leg2", "leg3" := "leg3", "leg4" := "leg4",
      "tail1" := "tail1", "tail3" := "tail3", "nose" := "nose",
      "topSnout" := "top_snout", "bottomSnout" := "bottom_snout", "jaw" := "jaw",
      "torso" := "torso", "leftTendril" := "left_tendril", "rightTendril" := "right_tendril",
      "leftTendril2" := "left_tendril2", "rightTendril2" := "right_tendril2"
    ]

  /** `mapBoneNames` as a value: the table entry of the name, else the
      table entry of its transform, else the transform. */
  function MappedName(name: string): string
  {
    if name in BoneMappings then BoneMappings[name]
    else if Transform(name) in BoneMappings then BoneMappings[Transform(name)]
    else Transform(name)
  }

  /** `mapBoneNames` */
  method MapBoneNames(name: string) returns (r: string)
    ensures r == MappedName(name)
    ensures name in BoneMappings ==> r == BoneMappings[name]
    ensures name !in BoneMappings ==> r in BoneMappings.Values || r == Transform(name)
  {
    if name in BoneMappings {
      return BoneMappings[name];
    }
    var t := TransformBoneName(name);
    if t in BoneMappings {
      return BoneMappings[t];
    }
    return t;
  }

  /** A name that neither the table nor the table after the transform
      knows maps to its transform, and mapping that again changes nothing. */
  lemma {:induction false} MappedNameFallbackStable(name: string)
    requires name !in BoneMappings && Transform(name) !in BoneMappings
    ensures MappedName(name) == Transform(name)
    ensures MappedName(MappedName(name)) == MappedName(name)
  {
    TransformIdempotent(name);
  }

  /** `/^[a-zA-Z0-9.]+(_[a-zA-Z0-9.]+)*$/.test(s)`, read left to right:
      one segment character, then segment characters or an underscore
      followed by a segment character. */
  predicate IsValidBedrockBoneName(s: string)
  {
    s != [] && IsSegmentChar(s[0]) && AfterSegmentChar(s[1..])
  }

  predicate AfterSegmentChar(t: string)
    decreases |t|
  {
    || t == []
    || (IsSegmentChar(t[0]) && AfterSegmentChar(t[1..]))
    || (|t| >= 2 && t[0] == '_' && IsSegmentChar(t[1]) && AfterSegmentChar(t[2..]))
  }

  /** Only `[A-Za-z0-9._]`, no two underscores in a row, and not ending in
      an underscore. */
  predicate NoLooseUnderscore(t: string)
  {
    && (forall i :: 0 <= i < |t| ==> IsSegmentChar(t[i]) || t[i] == '_')
    && (forall i :: 0 <= i < |t| - 1 ==> !(t[i] == '_' && t[i + 1] == '_'))
    && (t != [] ==> t[|t| - 1] != '_')
  }

  lemma {:induction false} AfterSegmentCharIff(t: string)
    ensures AfterSegmentChar(t) <==> NoLooseUnderscore(t)
    decreases |t|
  {
    if t != [] {
      if t[0] == '_' {
        if |t| >= 2 {
          AfterSegmentCharIff(t[2..]);
          if NoLooseUnderscore(t) {
            assert t[1] != '_';
            assert IsSegmentChar(t[1]);
            assert NoLooseUnderscore(t[2..]);
          }
          if AfterSegmentChar(t) {
            assert forall i :: 2 <= i < |t| ==> t[i] == t[2..][i - 2];
          }
        }
      } else {
        AfterSegmentCharIff(t[1..]);
        if AfterSegmentChar(t) {
          assert forall i :: 1 <= i < |t| ==> t[i] == t[1..][i - 1];
        }
      }
    }
  }

  /** Non-empty, over `[A-Za-z0-9._]`, neither starting nor ending with an
      underscore and never two underscores in a row. */
  predicate UnderscoreSeparated(s: string)
  {
    s != [] && s[0] != '_' && NoLooseUnderscore(s)
  }

  /** The pattern accepts exactly the underscore-separated names. */
  lemma {:induction false} ValidBedrockBoneNameIff(s: string)
    ensures IsValidBedrockBoneName(s) <==> UnderscoreSeparated(s)
  {
    if s != [] {
      AfterSegmentCharIff(s[1..]);
      assert forall i :: 1 <= i < |s| ==> s[i] == s[1..][i - 1];
    }
  }

  /** `s.split(sep)`: at least one part, none containing the separator, and
      joining them back gives `s`. */
  function Split(s: string, sep: char): (parts: seq<string>)
    ensures |parts| >= 1
    ensures forall i :: 0 <= i < |parts| ==> sep !in parts[i]
    ensures Join(parts, sep) == s
    decreases |s|
  {
    if s == [] then [[]]
    else if s[0] == sep then
      var rest := Split(s[1..], sep);
      assert Join([[]] + rest, sep) == [] + [sep] + Join(rest, sep) by {
        assert ([[]] + rest)[1..] == rest;
      }
      assert s == [sep] + s[1..];
      [[]] + rest
    else
      var rest := Split(s[1..], sep);
      var parts := [[s[0]] + rest[0]] + rest[1..];
      assert Join(parts, sep) == [s[0]] + Join(rest, sep) by {
        if |rest| > 1 {
          assert parts[1..] == rest[1..];
        }
      }
      assert s == [s[0]] + s[1..];
      parts
  }

  /** A string without the separator is a single part. */
  lemma {:induction false} SplitWhole(p: string, sep: char)
    requires sep !in p
    ensures Split(p, sep) == [p]
    decreases |p|
  {
    if p != [] {
      SplitWhole(p[1..], sep);
      assert [p[0]] + p[1..] == p;
    }
  }

  /** A part without the separator splits off whole. */
  lemma {:induction false} SplitPart(p: string, t: string, sep: char)
    requires sep !in p
    ensures Split(p + [sep] + t, sep) == [p] + Split(t, sep)
    decreases |p|
  {
    var s := p + [sep] + t;
    if p != [] {
      assert s[1..] == p[1..] + [sep] + t;
      var rest := Split(s[1..], sep);
      assert rest == [p[1..]] + Split(t, sep) by {
        SplitPart(p[1..], t, sep);
      }
      assert Split(s, sep) == [[p[0]] + rest[0]] + rest[1..] by {
        assert s != [] && s[0] == p[0] != sep;
      }
      assert [p[0]] + rest[0] == p;
    } else {
      assert s[1..] == t;
    }
  }

  /** Splitting what was joined gives the parts back. */
  lemma {:induction false} SplitJoin(parts: seq<string>, sep: char)
    requires |parts| >= 1 && forall i :: 0 <= i < |parts| ==> sep !in parts[i]
    ensures Split(Join(parts, sep), sep) == parts
  {
    SplitWhole(parts[0], sep);
    if |parts| > 1 {
      SplitJoin(parts[1..], sep);
      SplitPart(parts[0], Join(parts[1..], sep), sep);
      assert parts == [parts[0]] + parts[1..];
    }
  }

  /** There is more than one part exactly when the separator occurs. */
  lemma {:induction false} SplitMany(s: string, sep: char)
    ensures |Split(s, sep)| > 1 <==> sep in s
    decreases |s|
  {
    if s != [] {
      SplitMany(s[1..], sep);
      assert sep in s <==> s[0] == sep || sep in s[1..];
    }
  }

  /** Joining the first parts gives a prefix of joining them all. */
  lemma {:induction false} JoinPrefix(parts: seq<string>, k: nat, sep: char)
    requires k < |parts|
    ensures HasPrefix(Join(parts, sep), Join(parts[..k + 1], sep))
    decreases k
  {
    if k > 0 {
      JoinPrefix(parts[1..], k - 1, sep);
      assert parts[..k + 1][1..] == parts[1..][..k];
    }
  }

  datatype BoneHierarchy = BoneHierarchy(parts: seq<string>, hierarchy: seq<string>, depth: int, isHierarchical: bool)

  /** `getBoneHierarchy`: the k-th entry joins the first k + 1 dotted
      parts, so every entry is a prefix of the name and the last one is the
      name itself. */
  method GetBoneHierarchy(name: string) returns (h: BoneHierarchy)
    ensures h.parts == Split(name, '.')
    ensures |h.hierarchy| == |h.parts|
    ensures forall k :: 0 <= k < |h.hierarchy| ==> h.hierarchy[k] == Join(h.parts[..k + 1], '.')
    ensures forall k :: 0 <= k < |h.hierarchy| ==> HasPrefix(name, h.hierarchy[k])
    ensures h.hierarchy[|h.hierarchy| - 1] == name
    ensures h.depth == |h.parts| - 1
    ensures h.isHierarchical <==> '.' in name
  {
    var parts := Split(name, '.');
    var hierarchy: seq<string> := [];
    var i := 0;
    while i < |parts|
      invariant 0 <= i <= |parts| && |hierarchy| == i
      invariant forall k :: 0 <= k < i ==> hierarchy[k] == Join(parts[..k + 1], '.')
      invariant forall k :: 0 <= k < i ==> HasPrefix(name, hierarchy[k])
    {
      JoinPrefix(parts, i, '.');
      hierarchy := hierarchy + [Join(parts[..i + 1], '.')];
      i := i + 1;
    }
    assert parts[..|parts|] == parts;
    SplitMany(name, '.');
    h := BoneHierarchy(parts, hierarchy, |parts| - 1, |parts| > 1);
  }

  /** The entries of `boneSets` in `getCommonBoneNames`. */
  const PlayerBones: seq<string> := ["head", "body", "left_arm", "right_arm", "left_leg", "right_leg"]
  const ArmorStandBones: seq<string> := ["armor_stand.head", "armor_stand.body", "armor_stand.left_arm", "armor_stand.right_arm", "armor_stand.left_leg", "armor_stand.right_leg"]
  const HorseBones: seq<string> := ["body", "neck", "head", "tail_main", "tail_tip", "left_front_leg", "right_front_leg", "left_back_leg", "right_back_leg"]
  const BatBones: seq<string> := ["body", "head", "left_wing", "right_wing", "left_wing_tip", "right_wing_tip", "left_leg", "right_leg"]
  const ParrotBones: seq<string> := ["body", "tail", "left_wing", "right_wing", "head"]
  const RabbitBones: seq<string> := ["body", "head", "left_front_leg", "right_front_leg", "left_back_leg", "right_back_leg", "tail"]

  /** `boneSets` of `getCommonBoneNames`. */
  const BoneSets: map<string, seq<string>> := map[
    "player" := PlayerBones, "armor_stand" := ArmorStandBones, "horse" := HorseBones,
    "bat" := BatBones, "parrot" := ParrotBones, "rabbit" := RabbitBones
  ]

  /** Each name in the bone sets passes the validity pattern; the proofs
      check two names at a time. */
  lemma {:induction false} PlayerBonesValid0()
    ensures UnderscoreSeparated(PlayerBones[0]) && UnderscoreSeparated(PlayerBones[1])
  {
  }

  lemma {:induction false} PlayerBonesValid1()
    ensures UnderscoreSeparated(PlayerBones[2]) && UnderscoreSeparated(PlayerBones[3])
  {
  }

  lemma {:induction false} PlayerBonesValid2()
    ensures UnderscoreSeparated(PlayerBones[4]) && UnderscoreSeparated(PlayerBones[5])
  {
  }

  lemma {:induction false} PlayerBonesValid()
    ensures forall n :: n in PlayerBones ==> IsValidBedrockBoneName(n)
  {
    PlayerBonesValid0(); PlayerBonesValid1(); PlayerBonesValid2();
    forall n | n in PlayerBones
      ensures IsValidBedrockBoneName(n)
    {
      ValidBedrockBoneNameIff(n);
    }
  }

  lemma {:induction false} ArmorStandBonesValid0()
    ensures UnderscoreSeparated(ArmorStandBones[0]) && UnderscoreSeparated(ArmorStandBones[1])
  {
  }

  lemma {:induction false} ArmorStandBonesValid1()
    ensures UnderscoreSeparated(ArmorStandBones[2]) && UnderscoreSeparated(ArmorStandBones[3])
  {
  }

  lemma {:induction false} ArmorStandBonesValid2()
    ensures UnderscoreSeparated(ArmorStandBones[4]) && UnderscoreSeparated(ArmorStandBones[5])
  {
  }

  lemma {:induction false} ArmorStandBonesValid()
    ensures forall n :: n in ArmorStandBones ==> IsValidBedrockBoneName(n)
  {
    ArmorStandBonesValid0(); ArmorStandBonesValid1(); ArmorStandBonesValid2();
    forall n | n in ArmorStandBones
      ensures IsValidBedrockBoneName(n)
    {
      ValidBedrockBoneNameIff(n);
    }
  }

  lemma {:induction false} HorseBonesValid0()
    ensures UnderscoreSeparated(HorseBones[0]) && UnderscoreSeparated(HorseBones[1])
  {
  }

  lemma {:induction false} HorseBonesValid1()
    ensures UnderscoreSeparated(HorseBones[2]) && UnderscoreSeparated(HorseBones[3])
  {
  }

  lemma {:induction false} HorseBonesValid2()
    ensures UnderscoreSeparated(HorseBones[4]) && UnderscoreSeparated(HorseBones[5])
  {
  }

  lemma {:induction false} HorseBonesValid3()
    ensures UnderscoreSeparated(HorseBones[6]) && UnderscoreSeparated(HorseBones[7])
  {
  }

  lemma {:induction false} HorseBonesValid4()
    ensures UnderscoreSeparated(HorseBones[8])
  {
  }

  lemma {:induction false} HorseBonesValid()
    ensures forall n :: n in HorseBones ==> IsValidBedrockBoneName(n)
  {
    HorseBonesValid0(); HorseBonesValid1(); HorseBonesValid2(); HorseBonesValid3(); HorseBonesValid4();
    forall n | n in HorseBones
      ensures IsValidBedrockBoneName(n)
    {
      ValidBedrockBoneNameIff(n);
    }
  }

  lemma {:induction false} BatBonesValid0()
    ensures UnderscoreSeparated(BatBones[0]) && UnderscoreSeparated(BatBones[1])
  {
  }

  lemma {:induction false} BatBonesValid1()
    ensures UnderscoreSeparated(BatBones[2]) && UnderscoreSeparated(BatBones[3])
  {
  }

  lemma {:induction false} BatBonesValid2()
    ensures UnderscoreSeparated(BatBones[4]) && UnderscoreSeparated(BatBones[5])
  {
  }

  lemma {:induction false} BatBonesValid3()
    ensures UnderscoreSeparated(BatBones[6]) && UnderscoreSeparated(BatBones[7])
  {
  }

  lemma {:induction false} BatBonesValid()
    ensures forall n :: n in BatBones ==> IsValidBedrockBoneName(n)
  {
    BatBonesValid0(); BatBonesValid1(); BatBonesValid2(); BatBonesValid3();
    forall n | n in BatBones
      ensures IsValidBedrockBoneName(n)
    {
      ValidBedrockBoneNameIff(n);
    }
  }

  lemma {:induction false} ParrotBonesValid0()
    ensures UnderscoreSeparated(ParrotBones[0]) && UnderscoreSeparated(ParrotBones[1])
  {
  }

  lemma {:induction false} ParrotBonesValid1()
    ensures UnderscoreSeparated(ParrotBones[2]) && UnderscoreSeparated(ParrotBones[3])
  {
  }

  lemma {:induction false} ParrotBonesValid2()
    ensures UnderscoreSeparated(ParrotBones[4])
  {
  }

  lemma {:induction false} ParrotBonesValid()
    ensures forall n :: n in ParrotBones ==> IsValidBedrockBoneName(n)
  {
    ParrotBonesValid0(); ParrotBonesValid1(); ParrotBonesValid2();
    forall n | n in ParrotBones
      ensures IsValidBedrockBoneName(n)
    {
      ValidBedrockBoneNameIff(n);
    }
  }

  lemma {:induction false} RabbitBonesValid0()
    ensures UnderscoreSeparated(RabbitBones[0]) && UnderscoreSeparated(RabbitBones[1])
  {
  }

  lemma {:induction false} RabbitBonesValid1()
    ensures UnderscoreSeparated(RabbitBones[2]) && UnderscoreSeparated(RabbitBones[3])
  {
  }

  lemma {:induction false} RabbitBonesValid2()
    ensures UnderscoreSeparated(RabbitBones[4]) && UnderscoreSeparated(RabbitBones[5])
  {
  }

  lemma {:induction false} RabbitBonesValid3()
    ensures UnderscoreSeparated(RabbitBones[6])
  {
  }

  lemma {:induction false} RabbitBonesValid()
    ensures forall n :: n in RabbitBones ==> IsValidBedrockBoneName(n)
  {
    RabbitBonesValid0(); RabbitBonesValid1(); RabbitBonesValid2(); RabbitBonesValid3();
    forall n | n in RabbitBones
      ensures IsValidBedrockBoneName(n)
    {
      ValidBedrockBoneNameIff(n);
    }
  }

  /** `getCommonBoneNames`: the set of a known entity type, the player set
      for any other; every set is non-empty and holds only valid Bedrock
      bone names. */
  function CommonBoneNames(entityType: string): (r: seq<string>)
    ensures entityType in BoneSets ==> r == BoneSets[entityType]
    ensures entityType !in BoneSets ==> r == PlayerBones
    ensures |r| > 0 && forall n :: n in r ==> IsValidBedrockBoneName(n)
  {
    PlayerBonesValid(); ArmorStandBonesValid(); HorseBonesValid(); BatBonesValid(); ParrotBonesValid(); RabbitBonesValid();
    if entityType in BoneSets then BoneSets[entityType] else PlayerBones
  }
}
