/** The Java-to-Bedrock animation converter (`src/animationConverter.js`):
    file names are sanitised, each channel of keyframes becomes a timeline
    sorted by time with its largest time, bones become Bedrock bones under
    their mapped names, and a batch of files is converted one by one with a
    log entry per file. Key times arrive already parsed and in the order
    `Object.entries` yields them; rotation values stay symbolic as "the
    quaternion of these Euler angles". */
module AnimationConverter {
  import opened JsStrings
  import opened BoneMapping

  // ---------------------------------------------------------------------
  // sanitizeName

  predicate IsLetter(c: char) { IsLower(c) || IsUpper(c) }

  /** `[a-zA-Z0-9._-]` */
  predicate IsNameChar(c: char) { IsLetter(c) || IsDigit(c) || c == '.' || c == '_' || c == '-' }

  /** Ends in `.json`, letters in any case (`/\.json$/i`). */
  predicate EndsInJson(s: string)
  {
    |s| >= 5 && s[|s| - 5] == '.' && Lower(s[|s| - 4..]) == "json"
  }

  function StripJsonSuffix(s: string): string
  {
    if EndsInJson(s) then s[..|s| - 5] else s
  }

  /** `.replace(/[^a-zA-Z0-9._-]/g, '_')` */
  function ReplaceDisallowed(s: string): string
  {
    if s == [] then [] else [if IsNameChar(s[0]) then s[0] else '_'] + ReplaceDisallowed(s[1..])
  }

  /** `.replace(/^[^a-zA-Z]+/, '')` */
  function DropLeadingNonLetters(s: string): string
  {
    if s == [] || IsLetter(s[0]) then s else DropLeadingNonLetters(s[1..])
  }

  /** `sanitizeName` */
  function SanitizeName(fileName: string): string
  {
    Lower(DropLeadingNonLetters(ReplaceDisallowed(StripJsonSuffix(fileName))))
  }

  /** Lower-case letters, digits, `.`, `_` and `-`, starting with a letter
      when not empty. */
  predicate IsSanitized(s: string)
  {
    && (forall i :: 0 <= i < |s| ==> IsLower(s[i]) || IsDigit(s[i]) || s[i] == '.' || s[i] == '_' || s[i] == '-')
    && (s != [] ==> IsLower(s[0]))
  }

  lemma {:induction false} ReplaceDisallowedChars(s: string)
    ensures |ReplaceDisallowed(s)| == |s|
    ensures forall i :: 0 <= i < |s| ==> IsNameChar(ReplaceDisallowed(s)[i])
    ensures (forall i :: 0 <= i < |s| ==> IsNameChar(s[i])) ==> ReplaceDisallowed(s) == s
  {
    if s != [] {
      ReplaceDisallowedChars(s[1..]);
      assert forall i :: 1 <= i < |s| ==> ReplaceDisallowed(s)[i] == ReplaceDisallowed(s[1..])[i - 1];
    }
  }

  lemma {:induction false} DropLeadingSuffix(s: string)
    ensures var d := DropLeadingNonLetters(s);
      && |d| <= |s| && d == s[|s| - |d|..]
      && (d != [] ==> IsLetter(d[0]))
  {
    if s != [] && !IsLetter(s[0]) {
      DropLeadingSuffix(s[1..]);
    }
  }

  lemma {:induction false} LowerChars(s: string)
    ensures |Lower(s)| == |s|
    ensures forall i :: 0 <= i < |s| ==> Lower(s)[i] == ToLower(s[i])
  {
    if s != [] {
      LowerChars(s[1..]);
    }
  }

  /** The sanitised name only uses `[a-z0-9._-]` and is empty or starts
      with a letter. */
  lemma {:induction false} SanitizeNameForm(fileName: string)
    ensures IsSanitized(SanitizeName(fileName))
  {
    var r := ReplaceDisallowed(StripJsonSuffix(fileName));
    ReplaceDisallowedChars(StripJsonSuffix(fileName));
    var d := DropLeadingNonLetters(r);
    DropLeadingSuffix(r);
    assert forall i :: 0 <= i < |d| ==> d[i] == r[|r| - |d| + i];
    LowerChars(d);
  }

  /** A name already in sanitised form that does not end in `.json` comes
      back unchanged. */
  lemma {:induction false} SanitizeNameFixes(s: string)
    requires IsSanitized(s) && !EndsInJson(s)
    ensures SanitizeName(s) == s
  {
    ReplaceDisallowedChars(s);
    LowerNoUpper(s);
  }

  // ---------------------------------------------------------------------
  // Channel converters

  datatype ChannelKind = Rotation | Position | Scale

  /** One entry of a channel object: the parsed key and its vector. */
  datatype Keyframe = Keyframe(time: real, value: seq<real>)

  /** A vector kept as it is, or the quaternion of Euler angles given in
      degrees. */
  datatype FrameValue = Vector(components: seq<real>) | QuaternionOf(degrees: seq<real>)

  datatype TimelineEntry = TimelineEntry(time: real, value: FrameValue)

  datatype ChannelAnimation = ChannelAnimation(timeline: seq<TimelineEntry>, maxTime: real)

  function ValueOf(kind: ChannelKind, v: seq<real>): FrameValue
  {
    if kind == Rotation then QuaternionOf(v) else Vector(v)
  }

  function EntryOf(kind: ChannelKind, k: Keyframe): TimelineEntry
  {
    TimelineEntry(k.time, ValueOf(kind, k.value))
  }

  /** The timeline entries in keyframe order, before sorting. */
  function Unsorted(kind: ChannelKind, frames: seq<Keyframe>): (t: seq<TimelineEntry>)
    ensures |t| == |frames|
    ensures forall i :: 0 <= i < |frames| ==> t[i] == EntryOf(kind, frames[i])
  {
    if frames == [] then [] else Unsorted(kind, frames[..|frames| - 1]) + [EntryOf(kind, frames[|frames| - 1])]
  }

  function Max(a: real, b: real): real { if a >= b then a else b }

  /** `maxTime`: 0 to begin with, raised by each keyframe time in turn. */
  function MaxTime(frames: seq<Keyframe>): real
  {
    if frames == [] then 0.0 else Max(MaxTime(frames[..|frames| - 1]), frames[|frames| - 1].time)
  }

  /** The largest of 0 and all keyframe times. */
  lemma {:induction false} MaxTimeIsMax(frames: seq<Keyframe>)
    ensures MaxTime(frames) >= 0.0
    ensures forall i :: 0 <= i < |frames| ==> frames[i].time <= MaxTime(frames)
    ensures MaxTime(frames) == 0.0 || exists i :: 0 <= i < |frames| && frames[i].time == MaxTime(frames)
  {
    if frames != [] {
      var p := frames[..|frames| - 1];
      MaxTimeIsMax(p);
      assert forall i :: 0 <= i < |p| ==> frames[i] == p[i];
    }
  }

  predicate SortedByTime(t: seq<TimelineEntry>)
  {
    forall i, j :: 0 <= i < j < |t| ==> t[i].time <= t[j].time
  }

  /** Places `x` before the first entry with a later time. */
  function InsertByTime(x: TimelineEntry, s: seq<TimelineEntry>): seq<TimelineEntry>
  {
    if s == [] then [x]
    else if x.time < s[0].time then [x] + s
    else [s[0]] + InsertByTime(x, s[1..])
  }

  /** `timeline.sort((a, b) => a.time - b.time)`, a stable sort: each entry
      is placed after the earlier entries with the same time. */
  function SortByTime(t: seq<TimelineEntry>): seq<TimelineEntry>
  {
    if t == [] then [] else InsertByTime(t[|t| - 1], SortByTime(t[..|t| - 1]))
  }

  lemma {:induction false} InsertByTimePermutes(x: TimelineEntry, s: seq<TimelineEntry>)
    ensures multiset(InsertByTime(x, s)) == multiset(s) + multiset{x}
  {
    if s != [] && x.time >= s[0].time {
      InsertByTimePermutes(x, s[1..]);
      assert s == [s[0]] + s[1..];
    }
  }

  lemma {:induction false} InsertByTimeSorted(x: TimelineEntry, s: seq<TimelineEntry>)
    requires SortedByTime(s)
    ensures SortedByTime(InsertByTime(x, s))
  {
    if s != [] && x.time >= s[0].time {
      InsertByTimeSorted(x, s[1..]);
      var r := InsertByTime(x, s[1..]);
      InsertByTimePermutes(x, s[1..]);
      forall i | 0 <= i < |r|
        ensures s[0].time <= r[i].time
      {
        assert r[i] in multiset(r);
        if r[i] != x {
          assert r[i] in multiset(s[1..]);
          var j :| 0 <= j < |s[1..]| && s[1..][j] == r[i];
          assert s[j + 1] == r[i];
        }
      }
    }
  }

  /** The sort returns the same entries, ascending by time. */
  lemma {:induction false} SortByTimeSorted(t: seq<TimelineEntry>)
    ensures SortedByTime(SortByTime(t))
    ensures multiset(SortByTime(t)) == multiset(t)
  {
    if t != [] {
      SortByTimeSorted(t[..|t| - 1]);
      InsertByTimeSorted(t[|t| - 1], SortByTime(t[..|t| - 1]));
      InsertByTimePermutes(t[|t| - 1], SortByTime(t[..|t| - 1]));
      assert t == t[..|t| - 1] + [t[|t| - 1]];
    }
  }

  /** One channel converter as a value: `null` without keyframes. */
  function ChannelOf(kind: ChannelKind, frames: seq<Keyframe>): Option<ChannelAnimation>
  {
    if frames == [] then None
    else Some(ChannelAnimation(SortByTime(Unsorted(kind, frames)), MaxTime(frames)))
  }

  /** A converted channel has one timeline entry per keyframe, sorted by
      time, and its `maxTime` is the largest of 0 and the keyframe times. */
  lemma {:induction false} ChannelOfShape(kind: ChannelKind, frames: seq<Keyframe>)
    ensures ChannelOf(kind, frames).None? <==> frames == []
    ensures ChannelOf(kind, frames).Some? ==>
      var c := ChannelOf(kind, frames).value;
      && SortedByTime(c.timeline)
      && multiset(c.timeline) == multiset(Unsorted(kind, frames))
      && |c.timeline| == |frames|
      && c.maxTime >= 0.0
      && (forall i :: 0 <= i < |frames| ==> frames[i].time <= c.maxTime)
  {
    if frames != [] {
      var u := Unsorted(kind, frames);
      SortByTimeSorted(u);
      assert |SortByTime(u)| == |multiset(SortByTime(u))| == |u|;
      MaxTimeIsMax(frames);
    }
  }

  /** `convertRotationAnimation`, `convertPositionAnimation` and
      `convertScaleAnimation`: they differ only in the value they store. */
  method ConvertChannel(kind: ChannelKind, frames: seq<Keyframe>) returns (r: Option<ChannelAnimation>)
    ensures r == ChannelOf(kind, frames)
  {
    var timeline: seq<TimelineEntry> := [];
    var maxTime := 0.0;
    var i := 0;
    while i < |frames|
      invariant 0 <= i <= |frames|
      invariant timeline == Unsorted(kind, frames[..i])
      invariant maxTime == MaxTime(frames[..i])
    {
      assert frames[..i + 1][..i] == frames[..i];
      maxTime := Max(maxTime, frames[i].time);
      timeline := timeline + [EntryOf(kind, frames[i])];
      i := i + 1;
    }
    assert frames[..i] == frames;
    if |timeline| == 0 {
      return None;
    }
    return Some(ChannelAnimation(SortByTime(timeline), maxTime));
  }

  // ---------------------------------------------------------------------
  // convertBoneAnimation

  /** A bone of the Java file: the three optional channel objects, or a
      bone entry that is `null`. */
  datatype BoneData =
    | BoneData(rotation: Option<seq<Keyframe>>, position: Option<seq<Keyframe>>, scale: Option<seq<Keyframe>>)
    | NullBone

  datatype BoneAnimation = BoneAnimation(rotation: Option<ChannelAnimation>, position: Option<ChannelAnimation>, scale: Option<ChannelAnimation>)

  datatype ConvertedBone = ConvertedBone(name: string, animation: BoneAnimation, duration: real)

  /** A converted bone, `null`, or a thrown `TypeError`. */
  datatype BoneOutcome = BoneConverted(bone: ConvertedBone) | BoneSkipped | BoneThrew

  /** A present channel object converted; an absent one stays absent. */
  function ChannelIfPresent(kind: ChannelKind, frames: Option<seq<Keyframe>>): Option<ChannelAnimation>
  {
    if frames.Some? then ChannelOf(kind, frames.value) else None
  }

  /** `maxFrameTime`: 0 raised by the `maxTime` of each converted channel. */
  function MaxFrameTime(a: BoneAnimation): real
  {
    var m0 := 0.0;
    var m1 := if a.rotation.Some? then Max(m0, a.rotation.value.maxTime) else m0;
    var m2 := if a.position.Some? then Max(m1, a.position.value.maxTime) else m1;
    if a.scale.Some? then Max(m2, a.scale.value.maxTime) else m2
  }

  /** The duration is at least 0 and at least each converted channel's
      `maxTime`. */
  lemma {:induction false} MaxFrameTimeBounds(a: BoneAnimation)
    ensures MaxFrameTime(a) >= 0.0
    ensures a.rotation.Some? ==> a.rotation.value.maxTime <= MaxFrameTime(a)
    ensures a.position.Some? ==> a.position.value.maxTime <= MaxFrameTime(a)
    ensures a.scale.Some? ==> a.scale.value.maxTime <= MaxFrameTime(a)
  {
  }

  /** `convertBoneAnimation` as a value. */
  function BoneOutcomeOf(boneName: string, data: BoneData): BoneOutcome
  {
    match data
    case NullBone => BoneThrew
    case BoneData(rot, pos, scl) =>
      if rot.None? && pos.None? && scl.None? then BoneSkipped
      else
        var a := BoneAnimation(ChannelIfPresent(Rotation, rot), ChannelIfPresent(Position, pos), ChannelIfPresent(Scale, scl));
        if a.rotation.None? && a.position.None? && a.scale.None? then BoneSkipped
        else BoneConverted(ConvertedBone(MappedName(boneName), a, MaxFrameTime(a)))
  }

  predicate HasFrames(channel: Option<seq<Keyframe>>)
  {
    channel.Some? && channel.value != []
  }

  /** A present channel is converted exactly when it has keyframes, and its
      `maxTime` bounds them. */
  lemma {:induction false} ChannelIfPresentShape(kind: ChannelKind, frames: Option<seq<Keyframe>>)
    ensures ChannelIfPresent(kind, frames).Some? <==> HasFrames(frames)
    ensures HasFrames(frames) ==>
      var m := ChannelIfPresent(kind, frames).value.maxTime;
      m >= 0.0 && forall i :: 0 <= i < |frames.value| ==> frames.value[i].time <= m
  {
    if frames.Some? {
      ChannelOfShape(kind, frames.value);
    }
  }

  /** A bone is converted exactly when one of its channels has keyframes;
      it then carries the mapped name, exactly the channels that have
      keyframes, and a duration of at least 0 and at least every keyframe
      time. */
  lemma {:induction false} BoneOutcomeShape(boneName: string, data: BoneData)
    ensures BoneOutcomeOf(boneName, data).BoneThrew? <==> data.NullBone?
    ensures data.BoneData? ==>
      (BoneOutcomeOf(boneName, data).BoneConverted? <==>
        HasFrames(data.rotation) || HasFrames(data.position) || HasFrames(data.scale))
    ensures BoneOutcomeOf(boneName, data).BoneConverted? ==>
      var b := BoneOutcomeOf(boneName, data).bone;
      && b.name == MappedName(boneName)
      && (b.animation.rotation.Some? <==> HasFrames(data.rotation))
      && (b.animation.position.Some? <==> HasFrames(data.position))
      && (b.animation.scale.Some? <==> HasFrames(data.scale))
      && b.duration >= 0.0
      && (HasFrames(data.rotation) ==> forall i :: 0 <= i < |data.rotation.value| ==> data.rotation.value[i].time <= b.duration)
      && (HasFrames(data.position) ==> forall i :: 0 <= i < |data.position.value| ==> data.position.value[i].time <= b.duration)
      && (HasFrames(data.scale) ==> forall i :: 0 <= i < |data.scale.value| ==> data.scale.value[i].time <= b.duration)
  {
    if data.BoneData? {
      var a := BoneAnimation(ChannelIfPresent(Rotation, data.rotation), ChannelIfPresent(Position, data.position),
                             ChannelIfPresent(Scale, data.scale));
      ChannelIfPresentShape(Rotation, data.rotation);
      ChannelIfPresentShape(Position, data.position);
      ChannelIfPresentShape(Scale, data.scale);
      if a.rotation.Some? || a.position.Some? || a.scale.Some? {
        assert BoneOutcomeOf(boneName, data) == BoneConverted(ConvertedBone(MappedName(boneName), a, MaxFrameTime(a)));
        MaxFrameTimeBounds(a);
      }
    }
  }

  /** `convertBoneAnimation` */
  method ConvertBoneAnimation(boneName: string, data: BoneData) returns (r: BoneOutcome)
    ensures r == BoneOutcomeOf(boneName, data)
  {
    if data.NullBone? {
      return BoneThrew;
    }
    if data.rotation.None? && data.position.None? && data.scale.None? {
      return BoneSkipped;
    }
    var name := MapBoneNames(boneName);
    var rot, pos, scl: Option<ChannelAnimation> := None, None, None;
    var maxFrameTime := 0.0;
    if data.rotation.Some? {
      rot := ConvertChannel(Rotation, data.rotation.value);
      if rot.Some? {
        maxFrameTime := Max(maxFrameTime, rot.value.maxTime);
      }
    }
    if data.position.Some? {
      pos := ConvertChannel(Position, data.position.value);
      if pos.Some? {
        maxFrameTime := Max(maxFrameTime, pos.value.maxTime);
      }
    }
    if data.scale.Some? {
      scl := ConvertChannel(Scale, data.scale.value);
      if scl.Some? {
        maxFrameTime := Max(maxFrameTime, scl.value.maxTime);
      }
    }
    if rot.None? && pos.None? && scl.None? {
      return BoneSkipped;
    }
    return BoneConverted(ConvertedBone(name, BoneAnimation(rot, pos, scl), maxFrameTime));
  }

  // ---------------------------------------------------------------------
  // convertSingleAnimation

  /** One entry of `animation`: its `bones` entries, or an entry that is
      `null`. */
  datatype AnimData = AnimData(bones: Option<seq<(string, BoneData)>>) | NullAnimData

  /** The parsed Java file: its `animation` entries, absent when missing. */
  datatype JavaAnimation = JavaAnimation(animation: Option<seq<(string, AnimData)>>)

  /** An input file; `data` is absent when it is `null` or missing. */
  datatype AnimationFile = AnimationFile(fileName: string, data: Option<JavaAnimation>)

  datatype ConversionError = MissingAnimation | NoAnimationsFound | NoValidBones | NoAnimationsCreated | TypeError

  datatype Result<T> = Success(value: T) | Failure(error: ConversionError)

  datatype ConvertedAnimation = ConvertedAnimation(
    name: string, animations: map<string, BoneAnimation>, boneCount: nat, duration: real, originalFile: string)

  /** `bedrockAnimations`, `boneCount` and `maxDuration` while bones are
      converted. */
  datatype Acc = Acc(animations: map<string, BoneAnimation>, boneCount: nat, maxDuration: real)

  const Start := Acc(map[], 0, 0.0)

  /** What `convertBoneAnimation` gives for each bone, in order. */
  function Outcomes(bones: seq<(string, BoneData)>): (r: seq<BoneOutcome>)
    ensures |r| == |bones|
    ensures forall i :: 0 <= i < |bones| ==> r[i] == BoneOutcomeOf(bones[i].0, bones[i].1)
  {
    if bones == [] then []
    else Outcomes(bones[..|bones| - 1]) + [BoneOutcomeOf(bones[|bones| - 1].0, bones[|bones| - 1].1)]
  }

  /** One bone: a converted bone is stored under its name, replacing an
      earlier bone of the same name, and counted. */
  function StepBone(acc: Acc, o: BoneOutcome): Acc
  {
    match o
    case BoneConverted(b) => Acc(acc.animations[b.name := b.animation], acc.boneCount + 1, Max(acc.maxDuration, b.duration))
    case _ => acc
  }

  function FoldBones(acc: Acc, outs: seq<BoneOutcome>): Acc
  {
    if outs == [] then acc else StepBone(FoldBones(acc, outs[..|outs| - 1]), outs[|outs| - 1])
  }

  /** One animation entry: `null` throws, one without `bones` is skipped. */
  function StepAnim(acc: Option<Acc>, entry: (string, AnimData)): Option<Acc>
  {
    if acc.None? || entry.1.NullAnimData? then None
    else if entry.1.bones.None? then acc
    else Some(FoldBones(acc.value, Outcomes(entry.1.bones.value)))
  }

  function FoldAnims(acc: Option<Acc>, entries: seq<(string, AnimData)>): Option<Acc>
  {
    if entries == [] then acc else StepAnim(FoldAnims(acc, entries[..|entries| - 1]), entries[|entries| - 1])
  }

  /** `convertSingleAnimation` as a value. */
  function SingleAnimation(file: AnimationFile): Result<ConvertedAnimation>
  {
    if file.data.None? then Failure(TypeError)
    else if file.data.value.animation.None? then Failure(MissingAnimation)
    else
      var entries := file.data.value.animation.value;
      if entries == [] then Failure(NoAnimationsFound)
      else
        var acc := FoldAnims(Some(Start), entries);
        if acc.None? then Failure(TypeError)
        else if acc.value.boneCount == 0 then Failure(NoValidBones)
        else if |acc.value.animations.Keys| == 0 then Failure(NoAnimationsCreated)
        else Success(ConvertedAnimation(SanitizeName(file.fileName), acc.value.animations,
                                        acc.value.boneCount, acc.value.maxDuration, file.fileName))
  }

  lemma {:induction false} FoldBonesSnoc(acc: Acc, outs: seq<BoneOutcome>, o: BoneOutcome)
    ensures FoldBones(acc, outs + [o]) == StepBone(FoldBones(acc, outs), o)
  {
    assert (outs + [o])[..|outs|] == outs;
  }

  /** Folding bones only adds names and counts every converted bone, so
      there are never more names than counted bones, and at least one name
      once a bone was counted. The duration only grows. */
  lemma {:induction false} FoldBonesCounts(acc: Acc, outs: seq<BoneOutcome>)
    ensures var r := FoldBones(acc, outs);
      && r.boneCount >= acc.boneCount
      && acc.animations.Keys <= r.animations.Keys
      && |r.animations.Keys| <= |acc.animations.Keys| + (r.boneCount - acc.boneCount)
      && (r.boneCount > acc.boneCount ==> r.animations.Keys != {})
      && r.maxDuration >= acc.maxDuration
  {
    if outs != [] {
      var p := FoldBones(acc, outs[..|outs| - 1]);
      FoldBonesCounts(acc, outs[..|outs| - 1]);
      match outs[|outs| - 1]
      case BoneConverted(b) =>
        var keys := p.animations[b.name := b.animation].Keys;
        assert keys == p.animations.Keys + {b.name};
        assert |keys| <= |p.animations.Keys| + 1;
      case _ =>
    }
  }

  /** The converted bones among `outs`, in order; none exactly when no
      outcome is a conversion. */
  function ConvertedOf(outs: seq<BoneOutcome>): (r: seq<ConvertedBone>)
    ensures |r| <= |outs|
    ensures r == [] <==> forall i :: 0 <= i < |outs| ==> !outs[i].BoneConverted?
  {
    if outs == [] then []
    else
      var last := outs[|outs| - 1];
      ConvertedOf(outs[..|outs| - 1]) + (if last.BoneConverted? then [last.bone] else [])
  }

  /** The converted bones of one entry: none when it is `null` or has no
      `bones`. */
  function EntryConverted(d: AnimData): seq<ConvertedBone>
  {
    if d.AnimData? && d.bones.Some? then ConvertedOf(Outcomes(d.bones.value)) else []
  }

  /** The converted bones of all entries, entry after entry. */
  function EntriesConverted(entries: seq<(string, AnimData)>): seq<ConvertedBone>
  {
    if entries == [] then []
    else EntriesConverted(entries[..|entries| - 1]) + EntryConverted(entries[|entries| - 1].1)
  }

  /** There are no converted bones exactly when no entry has one. */
  lemma {:induction false} EntriesConvertedNone(entries: seq<(string, AnimData)>)
    ensures |EntriesConverted(entries)| == 0 <==> forall i :: 0 <= i < |entries| ==> |EntryConverted(entries[i].1)| == 0
  {
    if entries != [] {
      var q := entries[..|entries| - 1];
      var last := entries[|entries| - 1].1;
      EntriesConvertedNone(q);
      assert |EntriesConverted(entries)| == |EntriesConverted(q)| + |EntryConverted(last)|;
      if |EntriesConverted(entries)| == 0 {
        assert |EntriesConverted(q)| == 0 && |EntryConverted(last)| == 0;
        forall i | 0 <= i < |entries|
          ensures |EntryConverted(entries[i].1)| == 0
        {
          if i < |q| {
            assert entries[i] == q[i];
            assert |EntryConverted(q[i].1)| == 0;
          } else {
            assert entries[i].1 == last;
          }
        }
      } else if |EntryConverted(last)| == 0 {
        var j :| 0 <= j < |q| && |EntryConverted(q[j].1)| != 0;
        assert entries[j] == q[j];
      }
    }
  }

  /** Every converted bone of an entry has a duration of at least 0. */
  lemma {:induction false} ConvertedDurations(bones: seq<(string, BoneData)>)
    ensures forall b :: b in ConvertedOf(Outcomes(bones)) ==> b.duration >= 0.0
  {
    if bones != [] {
      var n := |bones|;
      var outs := Outcomes(bones);
      ConvertedDurations(bones[..n - 1]);
      assert outs[..n - 1] == Outcomes(bones[..n - 1]);
      BoneOutcomeShape(bones[n - 1].0, bones[n - 1].1);
    }
  }

  lemma {:induction false} EntriesDurations(entries: seq<(string, AnimData)>)
    ensures forall b :: b in EntriesConverted(entries) ==> b.duration >= 0.0
  {
    if entries != [] {
      EntriesDurations(entries[..|entries| - 1]);
      var last := entries[|entries| - 1].1;
      if last.AnimData? && last.bones.Some? {
        ConvertedDurations(last.bones.value);
      }
    }
  }

  /** Folding bones counts exactly the converted ones, and the duration is
      the largest of the starting one and theirs. */
  lemma {:induction false} FoldBonesConverted(acc: Acc, outs: seq<BoneOutcome>)
    ensures var r := FoldBones(acc, outs);
      var cs := ConvertedOf(outs);
      && r.boneCount == acc.boneCount + |cs|
      && r.maxDuration >= acc.maxDuration
      && (forall b :: b in cs ==> b.duration <= r.maxDuration)
      && (r.maxDuration == acc.maxDuration || exists b :: b in cs && b.duration == r.maxDuration)
  {
    if outs != [] {
      FoldBonesConverted(acc, outs[..|outs| - 1]);
    }
  }

  /** The mapped names of the converted bones `cs`. */
  function Names(cs: seq<ConvertedBone>): set<string>
  {
    set b | b in cs :: b.name
  }

  /** No later bone in `cs` has the name of `cs[i]`. */
  predicate LastOfName(cs: seq<ConvertedBone>, i: nat)
    requires i < |cs|
  {
    forall j :: i < j < |cs| ==> cs[j].name != cs[i].name
  }

  /** `m` is `m0` with the bones `cs` stored over it in order: its keys are
      those of `m0` and the names of `cs`, a name holds the animation of
      the last bone of that name, and the other keys keep their value. */
  ghost predicate Overlaid(m0: map<string, BoneAnimation>, cs: seq<ConvertedBone>, m: map<string, BoneAnimation>)
  {
    && m.Keys == m0.Keys + Names(cs)
    && (forall i :: 0 <= i < |cs| && LastOfName(cs, i) ==> cs[i].name in m && m[cs[i].name] == cs[i].animation)
    && (forall k :: k in m0 && k !in Names(cs) ==> k in m && m[k] == m0[k])
  }

  /** Storing one more bone keeps the overlay. */
  lemma {:induction false} OverlaidSnoc(m0: map<string, BoneAnimation>, cs: seq<ConvertedBone>,
                                        m: map<string, BoneAnimation>, b: ConvertedBone)
    requires Overlaid(m0, cs, m)
    ensures Overlaid(m0, cs + [b], m[b.name := b.animation])
  {
    var ds, m' := cs + [b], m[b.name := b.animation];
    assert Names(ds) == Names(cs) + {b.name} by {
      assert forall c :: c in ds <==> c in cs || c == b;
    }
    assert m'.Keys == m0.Keys + Names(ds);
    assert forall i :: 0 <= i < |ds| && LastOfName(ds, i) ==> ds[i].name in m' && m'[ds[i].name] == ds[i].animation by {
      forall i | 0 <= i < |ds| && LastOfName(ds, i)
        ensures ds[i].name in m' && m'[ds[i].name] == ds[i].animation
      {
        if i < |cs| {
          assert ds[i] == cs[i] && ds[|cs|] == b;
          assert LastOfName(cs, i) by {
            assert forall j :: i < j < |cs| ==> ds[j] == cs[j];
          }
        }
      }
    }
    assert forall k :: k in m0 && k !in Names(ds) ==> k in m' && m'[k] == m0[k];
  }

  /** Folding bones stores the converted bones over the map in order. */
  lemma {:induction false} FoldBonesKeys(acc: Acc, outs: seq<BoneOutcome>)
    ensures Overlaid(acc.animations, ConvertedOf(outs), FoldBones(acc, outs).animations)
  {
    if outs == [] {
      assert Names([]) == {};
    } else {
      var q := outs[..|outs| - 1];
      var p := FoldBones(acc, q);
      FoldBonesKeys(acc, q);
      match outs[|outs| - 1]
      case BoneConverted(b) =>
        assert ConvertedOf(outs) == ConvertedOf(q) + [b];
        assert FoldBones(acc, outs).animations == p.animations[b.name := b.animation];
        OverlaidSnoc(acc.animations, ConvertedOf(q), p.animations, b);
      case _ =>
        assert ConvertedOf(outs) == ConvertedOf(q);
        assert FoldBones(acc, outs) == p;
    }
  }

  /** A bone of the first run that no later bone renames keeps its
      animation through the second overlay. */
  lemma {:induction false} OverlaidAppendFirst(m0: map<string, BoneAnimation>, cs: seq<ConvertedBone>,
                                               m: map<string, BoneAnimation>, ds: seq<ConvertedBone>,
                                               m2: map<string, BoneAnimation>, i: nat)
    requires Overlaid(m0, cs, m) && Overlaid(m, ds, m2)
    requires i < |cs| && LastOfName(cs + ds, i)
    ensures cs[i].name in m2 && m2[cs[i].name] == cs[i].animation
  {
    var es := cs + ds;
    assert es[i] == cs[i];
    assert LastOfName(cs, i) by {
      assert forall j :: i < j < |cs| ==> es[j] == cs[j];
    }
    assert cs[i].name !in Names(ds) by {
      assert forall j :: 0 <= j < |ds| ==> es[|cs| + j] == ds[j];
    }
  }

  /** A bone of the second run that is last of its name in both runs. */
  lemma {:induction false} OverlaidAppendSecond(cs: seq<ConvertedBone>, ds: seq<ConvertedBone>, i: nat)
    requires |cs| <= i < |cs + ds| && LastOfName(cs + ds, i)
    ensures (cs + ds)[i] == ds[i - |cs|] && LastOfName(ds, i - |cs|)
  {
    var es, j := cs + ds, i - |cs|;
    assert forall l :: j < l < |ds| ==> es[|cs| + l] == ds[l];
  }

  /** Two overlays in a row are one overlay with both runs of bones. */
  lemma {:induction false} OverlaidAppend(m0: map<string, BoneAnimation>, cs: seq<ConvertedBone>,
                                          m: map<string, BoneAnimation>, ds: seq<ConvertedBone>,
                                          m2: map<string, BoneAnimation>)
    requires Overlaid(m0, cs, m) && Overlaid(m, ds, m2)
    ensures Overlaid(m0, cs + ds, m2)
  {
    var es := cs + ds;
    assert Names(es) == Names(cs) + Names(ds) by {
      assert forall c :: c in es <==> c in cs || c in ds;
    }
    forall i | 0 <= i < |es| && LastOfName(es, i)
      ensures es[i].name in m2 && m2[es[i].name] == es[i].animation
    {
      if i < |cs| {
        OverlaidAppendFirst(m0, cs, m, ds, m2, i);
      } else {
        OverlaidAppendSecond(cs, ds, i);
      }
    }
  }

  /** When folding the entries succeeds, it stores the converted bones of
      all entries over the map in order. */
  lemma {:induction false} FoldAnimsKeys(acc: Acc, entries: seq<(string, AnimData)>)
    ensures FoldAnims(Some(acc), entries).Some? ==>
      Overlaid(acc.animations, EntriesConverted(entries), FoldAnims(Some(acc), entries).value.animations)
  {
    if entries == [] {
      assert Names([]) == {};
    } else {
      var q := entries[..|entries| - 1];
      FoldAnimsKeys(acc, q);
      var p := FoldAnims(Some(acc), q);
      var last := entries[|entries| - 1].1;
      assert FoldAnims(Some(acc), entries) == StepAnim(p, entries[|entries| - 1]);
      assert EntriesConverted(entries) == EntriesConverted(q) + EntryConverted(last);
      if p.Some? && last.AnimData? {
        if last.bones.Some? {
          var outs := Outcomes(last.bones.value);
          FoldBonesKeys(p.value, outs);
          OverlaidAppend(acc.animations, EntriesConverted(q), p.value.animations,
                         ConvertedOf(outs), FoldBones(p.value, outs).animations);
        } else {
          assert EntriesConverted(entries) == EntriesConverted(q);
        }
      }
    }
  }

  /** Folding the entries fails exactly when one of them is `null`. */
  lemma {:induction false} FoldAnimsSucceeds(acc: Acc, entries: seq<(string, AnimData)>)
    ensures FoldAnims(Some(acc), entries).Some? <==> forall i :: 0 <= i < |entries| ==> entries[i].1.AnimData?
  {
    if entries != [] {
      var q := entries[..|entries| - 1];
      var last := entries[|entries| - 1].1;
      FoldAnimsSucceeds(acc, q);
      var p := FoldAnims(Some(acc), q);
      if FoldAnims(Some(acc), entries).Some? {
        assert p.Some? && last.AnimData?;
        forall i | 0 <= i < |entries|
          ensures entries[i].1.AnimData?
        {
          if i < |q| {
            assert entries[i] == q[i];
          }
        }
      } else if p.None? {
        var j :| 0 <= j < |q| && !q[j].1.AnimData?;
        assert entries[j] == q[j];
      }
    }
  }

  /** When folding the entries succeeds, it counts exactly the converted
      bones of all entries, and the duration is the largest of the starting
      one and theirs. */
  lemma {:induction false} FoldAnimsConverted(acc: Acc, entries: seq<(string, AnimData)>)
    ensures FoldAnims(Some(acc), entries).Some? ==>
      var r := FoldAnims(Some(acc), entries).value;
      var cs := EntriesConverted(entries);
      && r.boneCount == acc.boneCount + |cs|
      && r.maxDuration >= acc.maxDuration
      && (forall b :: b in cs ==> b.duration <= r.maxDuration)
      && (r.maxDuration == acc.maxDuration || exists b :: b in cs && b.duration == r.maxDuration)
  {
    if entries != [] {
      var q := entries[..|entries| - 1];
      FoldAnimsConverted(acc, q);
      var p := FoldAnims(Some(acc), q);
      var last := entries[|entries| - 1].1;
      if p.Some? && last.AnimData? && last.bones.Some? {
        FoldBonesConverted(p.value, Outcomes(last.bones.value));
      }
    }
  }

  lemma {:induction false} FoldAnimsCounts(acc: Acc, entries: seq<(string, AnimData)>)
    ensures FoldAnims(Some(acc), entries).Some? ==>
      var r := FoldAnims(Some(acc), entries).value;
      && r.boneCount >= acc.boneCount
      && |r.animations.Keys| <= |acc.animations.Keys| + (r.boneCount - acc.boneCount)
      && (r.boneCount > acc.boneCount ==> r.animations.Keys != {})
      && r.maxDuration >= acc.maxDuration
  {
    if entries != [] {
      FoldAnimsCounts(acc, entries[..|entries| - 1]);
      var p := FoldAnims(Some(acc), entries[..|entries| - 1]);
      var last := entries[|entries| - 1];
      if p.Some? && last.1.AnimData? && last.1.bones.Some? {
        FoldBonesCounts(p.value, Outcomes(last.1.bones.value));
      }
    }
  }

  /** Once an entry has thrown, the conversion stays failed. */
  lemma {:induction false} FoldAnimsStaysFailed(acc: Option<Acc>, entries: seq<(string, AnimData)>, k: nat)
    requires k <= |entries| && FoldAnims(acc, entries[..k]).None?
    ensures FoldAnims(acc, entries).None?
    decreases |entries| - k
  {
    if k < |entries| {
      assert entries[..k + 1][..k] == entries[..k];
      FoldAnimsStaysFailed(acc, entries, k + 1);
    } else {
      assert entries[..k] == entries;
    }
  }

  /** A file whose `animation` has entries fails with a `TypeError` exactly
      when one entry is `null`, and with "no valid bones" exactly when no
      bone of any entry converts; "no animations could be created" never
      happens. */
  lemma {:induction false} SingleAnimationErrors(file: AnimationFile)
    ensures SingleAnimation(file) != Failure(NoAnimationsCreated)
    ensures file.data.Some? && file.data.value.animation.Some? && file.data.value.animation.value != [] ==>
      var entries := file.data.value.animation.value;
      && (SingleAnimation(file) == Failure(TypeError) <==> exists i :: 0 <= i < |entries| && entries[i].1.NullAnimData?)
      && (SingleAnimation(file) == Failure(NoValidBones) <==>
            (forall i :: 0 <= i < |entries| ==> entries[i].1.AnimData?) &&
            (forall i :: 0 <= i < |entries| ==> |EntryConverted(entries[i].1)| == 0))
  {
    if file.data.Some? && file.data.value.animation.Some? {
      var entries := file.data.value.animation.value;
      FoldAnimsCounts(Start, entries);
      FoldAnimsSucceeds(Start, entries);
      FoldAnimsConverted(Start, entries);
      EntriesConvertedNone(entries);
    }
  }

  /** A converted file counts exactly the converted bones, at least as many
      as it has names and at least one; its keys are exactly the converted
      bones' names, each holding the animation of the last bone of that
      name; it carries the sanitised name and the original file name, and
      its duration is the largest duration of its converted bones. */
  lemma {:induction false} SingleAnimationShape(file: AnimationFile)
    ensures SingleAnimation(file).Success? ==>
      var c := SingleAnimation(file).value;
      var cs := EntriesConverted(file.data.value.animation.value);
      && c.boneCount == |cs|
      && c.boneCount >= |c.animations.Keys| >= 1
      && c.animations.Keys == Names(cs)
      && (forall i :: 0 <= i < |cs| && LastOfName(cs, i) ==> c.animations[cs[i].name] == cs[i].animation)
      && c.name == SanitizeName(file.fileName) && IsSanitized(c.name)
      && c.originalFile == file.fileName
      && (forall b :: b in cs ==> b.duration <= c.duration)
      && (exists b :: b in cs && b.duration == c.duration)
  {
    SanitizeNameForm(file.fileName);
    if SingleAnimation(file).Success? {
      var entries := file.data.value.animation.value;
      FoldAnimsCounts(Start, entries);
      FoldAnimsConverted(Start, entries);
      FoldAnimsKeys(Start, entries);
      var acc := FoldAnims(Some(Start), entries).value;
      assert acc.boneCount > 0;
      assert |acc.animations.Keys| >= 1 by {
        assert acc.animations.Keys != {};
      }
      var cs := EntriesConverted(entries);
      EntriesDurations(entries);
      if acc.maxDuration == 0.0 {
        assert cs[0] in cs && cs[0].duration == 0.0;
      }
    }
  }

  /** The bones of one animation entry, converted in order. */
  method ConvertBones(acc: Acc, bones: seq<(string, BoneData)>) returns (r: Acc)
    ensures r == FoldBones(acc, Outcomes(bones))
  {
    var animations, boneCount, maxDuration := acc.animations, acc.boneCount, acc.maxDuration;
    var j := 0;
    while j < |bones|
      invariant 0 <= j <= |bones|
      invariant Acc(animations, boneCount, maxDuration) == FoldBones(acc, Outcomes(bones[..j]))
    {
      assert bones[..j + 1][..j] == bones[..j];
      var converted := ConvertBoneAnimation(bones[j].0, bones[j].1);
      assert Outcomes(bones[..j + 1]) == Outcomes(bones[..j]) + [converted];
      FoldBonesSnoc(acc, Outcomes(bones[..j]), converted);
      if converted.BoneConverted? {
        animations := animations[converted.bone.name := converted.bone.animation];
        boneCount := boneCount + 1;
        maxDuration := Max(maxDuration, converted.bone.duration);
      }
      j := j + 1;
    }
    assert bones[..j] == bones;
    r := Acc(animations, boneCount, maxDuration);
  }

  /** `convertSingleAnimation` */
  method ConvertSingleAnimation(file: AnimationFile) returns (r: Result<ConvertedAnimation>)
    ensures r == SingleAnimation(file)
  {
    if file.data.None? {
      return Failure(TypeError);
    }
    if file.data.value.animation.None? {
      return Failure(MissingAnimation);
    }
    var entries := file.data.value.animation.value;
    if |entries| == 0 {
      return Failure(NoAnimationsFound);
    }
    var acc := Start;
    var i := 0;
    while i < |entries|
      invariant 0 <= i <= |entries|
      invariant FoldAnims(Some(Start), entries[..i]) == Some(acc)
    {
      assert entries[..i + 1][..i] == entries[..i];
      var animData := entries[i].1;
      if animData.NullAnimData? {
        FoldAnimsStaysFailed(Some(Start), entries, i + 1);
        return Failure(TypeError);
      }
      if animData.bones.Some? {
        acc := ConvertBones(acc, animData.bones.value);
      }
      i := i + 1;
    }
    assert entries[..i] == entries;
    if acc.boneCount == 0 {
      return Failure(NoValidBones);
    }
    if |acc.animations.Keys| == 0 {
      return Failure(NoAnimationsCreated);
    }
    return Success(ConvertedAnimation(SanitizeName(file.fileName), acc.animations, acc.boneCount, acc.maxDuration, file.fileName));
  }

  // ---------------------------------------------------------------------
  // convertJavaToBedrockAnimation

  /** One `conversionLog` entry. */
  datatype LogEntry =
    | LogSuccess(fileName: string, bonesConverted: nat, duration: real)
    | LogError(fileName: string, error: ConversionError)

  /** `javaData`: the `animations` list, absent when missing, and
      `packName`. */
  datatype JavaData = JavaData(animations: Option<seq<AnimationFile>>, packName: string)

  datatype BatchError = NothingConverted | BatchTypeError

  /** `{success: true, data}` or `{success: false, error}`. */
  datatype BatchResult =
    | BatchOk(animations: seq<ConvertedAnimation>, packName: string, convertedCount: nat, log: seq<LogEntry>)
    | BatchFailed(error: BatchError)

  /** What `convertSingleAnimation` gives for each file, in order. */
  function Results(files: seq<AnimationFile>): (r: seq<Result<ConvertedAnimation>>)
    ensures |r| == |files|
    ensures forall i :: 0 <= i < |files| ==> r[i] == SingleAnimation(files[i])
  {
    if files == [] then [] else Results(files[..|files| - 1]) + [SingleAnimation(files[|files| - 1])]
  }

  function LogEntryOf(fileName: string, r: Result<ConvertedAnimation>): LogEntry
  {
    match r
    case Success(c) => LogSuccess(fileName, c.boneCount, c.duration)
    case Failure(e) => LogError(fileName, e)
  }

  /** The successful conversions, in input order. */
  function Successes(rs: seq<Result<ConvertedAnimation>>): seq<ConvertedAnimation>
  {
    if rs == [] then []
    else Successes(rs[..|rs| - 1]) + (if rs[|rs| - 1].Success? then [rs[|rs| - 1].value] else [])
  }

  function Log(files: seq<AnimationFile>, rs: seq<Result<ConvertedAnimation>>): seq<LogEntry>
    requires |rs| == |files|
  {
    if files == [] then []
    else Log(files[..|files| - 1], rs[..|rs| - 1]) + [LogEntryOf(files[|files| - 1].fileName, rs[|rs| - 1])]
  }

  /** `convertJavaToBedrockAnimation` as a value. */
  function Batch(data: JavaData): BatchResult
  {
    if data.animations.None? then BatchFailed(BatchTypeError)
    else
      var rs := Results(data.animations.value);
      var converted := Successes(rs);
      if |converted| == 0 then BatchFailed(NothingConverted)
      else BatchOk(converted, data.packName, |converted|, Log(data.animations.value, rs))
  }

  /** The log has one entry per file, in order, naming the file and saying
      whether it converted. */
  lemma {:induction false} LogEntries(files: seq<AnimationFile>, rs: seq<Result<ConvertedAnimation>>)
    requires |rs| == |files|
    ensures |Log(files, rs)| == |files|
    ensures forall i :: 0 <= i < |files| ==>
      && Log(files, rs)[i].fileName == files[i].fileName
      && (Log(files, rs)[i].LogSuccess? <==> rs[i].Success?)
  {
    if files != [] {
      var p, q := files[..|files| - 1], rs[..|rs| - 1];
      LogEntries(p, q);
      assert forall i :: 0 <= i < |p| ==> files[i] == p[i] && rs[i] == q[i];
    }
  }

  /** Every success is kept and nothing else is: there are successes
      exactly when some conversion succeeded. */
  lemma {:induction false} SuccessesCollect(rs: seq<Result<ConvertedAnimation>>)
    ensures forall i :: 0 <= i < |rs| && rs[i].Success? ==> rs[i].value in Successes(rs)
    ensures forall c :: c in Successes(rs) ==> Success(c) in rs
    ensures |Successes(rs)| > 0 <==> exists i :: 0 <= i < |rs| && rs[i].Success?
  {
    if rs != [] {
      var p := rs[..|rs| - 1];
      SuccessesCollect(p);
      assert forall i :: 0 <= i < |p| ==> rs[i] == p[i];
      assert rs == p + [rs[|rs| - 1]];
    }
  }

  /** The indices of the successful conversions, in input order. */
  function SuccessIndices(rs: seq<Result<ConvertedAnimation>>): seq<nat>
  {
    if rs == [] then []
    else SuccessIndices(rs[..|rs| - 1]) + (if rs[|rs| - 1].Success? then [|rs| - 1] else [])
  }

  /** The successes are the results at strictly increasing indices, and
      every index of a success is among them. */
  lemma {:induction false} SuccessesInOrder(rs: seq<Result<ConvertedAnimation>>)
    ensures var idx, cs := SuccessIndices(rs), Successes(rs);
      && |idx| == |cs|
      && (forall k :: 0 <= k < |idx| ==> idx[k] < |rs| && rs[idx[k]] == Success(cs[k]))
      && (forall k, l :: 0 <= k < l < |idx| ==> idx[k] < idx[l])
      && (forall i :: 0 <= i < |rs| && rs[i].Success? ==> i in idx)
  {
    if rs != [] {
      var p := rs[..|rs| - 1];
      SuccessesInOrder(p);
      assert forall i :: 0 <= i < |p| ==> rs[i] == p[i];
    }
  }

  /** The number of successes is the number of results that succeeded. */
  lemma {:induction false} SuccessesCount(rs: seq<Result<ConvertedAnimation>>)
    ensures |Successes(rs)| == |set i | 0 <= i < |rs| && rs[i].Success?|
  {
    if rs != [] {
      var p := rs[..|rs| - 1];
      SuccessesCount(p);
      var sp := set i | 0 <= i < |p| && p[i].Success?;
      var sr := set i | 0 <= i < |rs| && rs[i].Success?;
      assert forall i :: 0 <= i < |p| ==> rs[i] == p[i];
      if rs[|rs| - 1].Success? {
        assert sr == sp + {|rs| - 1};
      } else {
        assert sr == sp;
      }
    }
  }

  /** The batch fails exactly when the list is missing or no file
      converts; otherwise it keeps the successes and only them, counts
      them and logs every file. */
  lemma {:induction false} BatchShape(data: JavaData)
    ensures Batch(data).BatchOk? <==>
      data.animations.Some? &&
      exists i :: 0 <= i < |data.animations.value| && SingleAnimation(data.animations.value[i]).Success?
    ensures data.animations.Some? && Batch(data).BatchOk? ==>
      var files := data.animations.value;
      var b := Batch(data);
      && b.convertedCount == |b.animations| >= 1
      && b.packName == data.packName
      && (forall c :: c in b.animations ==> exists i :: 0 <= i < |files| && SingleAnimation(files[i]) == Success(c))
      && (forall i :: 0 <= i < |files| && SingleAnimation(files[i]).Success? ==> SingleAnimation(files[i]).value in b.animations)
      && |b.log| == |files|
      && (forall i :: 0 <= i < |files| ==>
            b.log[i].fileName == files[i].fileName &&
            (b.log[i].LogSuccess? <==> SingleAnimation(files[i]).Success?))
  {
    if data.animations.Some? {
      var files := data.animations.value;
      var rs := Results(files);
      SuccessesCollect(rs);
      LogEntries(files, rs);
      forall c | c in Successes(rs)
        ensures exists i :: 0 <= i < |files| && SingleAnimation(files[i]) == Success(c)
      {
        var i :| 0 <= i < |rs| && rs[i] == Success(c);
      }
    }
  }

  /** A successful batch keeps the successes in input order: the `k`-th
      kept animation is the result of the `k`-th file that converted, and
      the count is the number of files that converted. */
  lemma {:induction false} BatchOrder(data: JavaData)
    ensures data.animations.Some? && Batch(data).BatchOk? ==>
      var files := data.animations.value;
      var b := Batch(data);
      var idx := SuccessIndices(Results(files));
      && b.convertedCount == |set i | 0 <= i < |files| && SingleAnimation(files[i]).Success?|
      && |idx| == |b.animations|
      && (forall k :: 0 <= k < |idx| ==> idx[k] < |files| && SingleAnimation(files[idx[k]]) == Success(b.animations[k]))
      && (forall k, l :: 0 <= k < l < |idx| ==> idx[k] < idx[l])
      && (forall i :: 0 <= i < |files| && SingleAnimation(files[i]).Success? ==> i in idx)
  {
    if data.animations.Some? {
      var files := data.animations.value;
      var rs := Results(files);
      SuccessesInOrder(rs);
      SuccessesCount(rs);
      assert (set i | 0 <= i < |rs| && rs[i].Success?) == (set i | 0 <= i < |files| && SingleAnimation(files[i]).Success?);
    }
  }

  lemma {:induction false} SuccessesSnoc(rs: seq<Result<ConvertedAnimation>>, x: Result<ConvertedAnimation>)
    ensures Successes(rs + [x]) == Successes(rs) + if x.Success? then [x.value] else []
  {
    assert (rs + [x])[..|rs|] == rs;
  }

  lemma {:induction false} LogSnoc(files: seq<AnimationFile>, rs: seq<Result<ConvertedAnimation>>,
                                   f: AnimationFile, x: Result<ConvertedAnimation>)
    requires |rs| == |files|
    ensures Log(files + [f], rs + [x]) == Log(files, rs) + [LogEntryOf(f.fileName, x)]
  {
    assert (files + [f])[..|files|] == files && (rs + [x])[..|rs|] == rs;
  }

  /** `convertJavaToBedrockAnimation`; the processing time is left out. */
  method ConvertJavaToBedrockAnimation(data: JavaData) returns (r: BatchResult)
    ensures r == Batch(data)
  {
    if data.animations.None? {
      return BatchFailed(BatchTypeError);
    }
    var files := data.animations.value;
    var converted: seq<ConvertedAnimation> := [];
    var log: seq<LogEntry> := [];
    var i := 0;
    while i < |files|
      invariant 0 <= i <= |files|
      invariant converted == Successes(Results(files[..i]))
      invariant log == Log(files[..i], Results(files[..i]))
    {
      assert files[..i + 1][..i] == files[..i];
      var c := ConvertSingleAnimation(files[i]);
      assert Results(files[..i + 1]) == Results(files[..i]) + [c];
      SuccessesSnoc(Results(files[..i]), c);
      LogSnoc(files[..i], Results(files[..i]), files[i], c);
      if c.Success? {
        converted := converted + [c.value];
        log := log + [LogSuccess(files[i].fileName, c.value.boneCount, c.value.duration)];
      } else {
        log := log + [LogError(files[i].fileName, c.error)];
      }
      i := i + 1;
    }
    assert files[..i] == files;
    if |converted| == 0 {
      return BatchFailed(NothingConverted);
    }
    return BatchOk(converted, data.packName, |converted|, log);
  }
}
