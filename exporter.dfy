/** The Java code generator: one `new AdvancedKeyframe(...)` fragment per keyframe
    (`createKeyframe`), one `.addAnimation(...)` channel per non-empty bone target
    (`createTarget`), and the class that holds one builder chain per exported animation
    (`createFileText`). */
module Exporter {
  import opened Strings
  import opened Expressions
  import opened Naming
  import opened Keyframes

  /** An animator of an animation: a bone animator with its three keyframe channels, or any
      other kind of animator, which the exporter skips. */
  datatype Animator =
    | Bone(name: string, rotation: seq<Keyframe>, position: seq<Keyframe>, scale: seq<Keyframe>)
    | Other

  /** An animation chosen for export: its name, its length and its animators in iteration order. */
  datatype Animation = Animation(name: string, length: real, animators: seq<Animator>)

  const KeyframeOpen := "\nnew AdvancedKeyframe("
  const InstanceOpen := "F, new AdvancedAnimationInstance((modifiers) -> { return "
  const NextValue := "; }, (modifiers) -> { return "
  const KeyframeClose := "; }), AdvancedAnimationChannel.Interpolations.CATMULLROM),"
  const ChannelOpen := "\n.addAnimation(\""
  const ChannelTarget := "\", new AdvancedAnimationChannel(AdvancedAnimationChannel.Targets."
  const KeyframesOpen := ", new AdvancedKeyframe[] {"
  const ChannelClose := "\n}))"
  const DefinitionOpen := "\n\npublic static final AdvancedAnimationDefinition "
  const BuilderOpen := " = AdvancedAnimationDefinition.Builder.withLength("
  const LengthClose := "F)"
  const BuildClose := "\n.build();"
  const ClassOpen := "public class "
  const ClassBrace := " {"
  const ClassClose := "\n}"

  /** `s` begins with `p`. */
  predicate StartsWith(s: string, p: string) {
    |p| <= |s| && s[..|p|] == p
  }

  /** `s` ends with `p`. */
  predicate EndsWith(s: string, p: string) {
    |p| <= |s| && s[|s| - |p|..] == p
  }

  lemma ConcatStartsWith(p: string, q: string)
    ensures StartsWith(p + q, p)
  {
    assert (p + q)[..|p|] == p;
  }

  lemma ConcatEndsWith(p: string, q: string)
    ensures EndsWith(p + q, q)
  {
    assert (p + q)[|p + q| - |q|..] == q;
  }

  lemma PrefixExtended(s: string, t: string, p: string)
    ensures StartsWith(s, p) ==> StartsWith(s + t, p)
  {
    if StartsWith(s, p) {
      assert (s + t)[..|p|] == s[..|p|];
    }
  }

  /** `b` sits at index `|p|` of `p + b`, and stays there when more text follows. */
  lemma InfixAtEnd(p: string, b: string)
    ensures IsInfixAt(b, p + b, |p|)
  {
    assert (p + b)[|p|..|p| + |b|] == b;
  }

  lemma InfixExtended(s: string, t: string, b: string, i: int)
    ensures IsInfixAt(b, s, i) ==> IsInfixAt(b, s + t, i)
  {
    if IsInfixAt(b, s, i) {
      assert (s + t)[i..i + |b|] == s[i..i + |b|];
    }
  }

  /** The texts `f` produces for the elements of `s`, one after the other: the shape of
      every loop of the exporter that appends one piece per element. */
  function Join<T>(f: T -> string, s: seq<T>): string
    decreases |s|
  {
    if s == [] then "" else Join(f, s[..|s| - 1]) + f(s[|s| - 1])
  }

  /** Joining `a + b` is joining `a`, then joining `b`. */
  lemma {:induction false} JoinAppend<T>(f: T -> string, a: seq<T>, b: seq<T>)
    ensures Join(f, a + b) == Join(f, a) + Join(f, b)
    decreases |b|
  {
    if b == [] {
      assert a + b == a;
      EmptyUnit(Join(f, a));
    } else {
      var init, last := b[..|b| - 1], b[|b| - 1];
      JoinAppend(f, a, init);
      assert (a + b)[..|a + b| - 1] == a + init;
      assert (a + b)[|a + b| - 1] == last;
      Assoc(Join(f, a), Join(f, init), f(last));
    }
  }

  /** One more element appends its own text. */
  lemma JoinStep<T>(f: T -> string, s: seq<T>, i: nat)
    requires i < |s|
    ensures Join(f, s[..i + 1]) == Join(f, s[..i]) + f(s[i])
  {
    assert s[..i + 1][..i] == s[..i];
  }

  // ---------------------------------------------------------------- createKeyframe

  /** The text `createKeyframe` returns for a keyframe at `time` with expressions `x`, `y`,
      `z`; `num` is how the host language renders a number. A fragment opens with the
      keyframe's time followed by `F` and closes by selecting CATMULLROM interpolation. */
  function CreateKeyframe(num: real -> string, time: real, x: string, y: string, z: string): (r: string)
    ensures StartsWith(r, KeyframeOpen + num(time) + InstanceOpen)
    ensures EndsWith(r, KeyframeClose)
  {
    var head := KeyframeOpen + num(time) + InstanceOpen;
    var fx, fy, fz := FixedValue(x), FixedValue(y), FixedValue(z);
    ConcatEndsWith(head + fx + NextValue + fy + NextValue + fz, KeyframeClose);
    ConcatStartsWith(head, fx);
    PrefixExtended(head + fx, NextValue, head);
    PrefixExtended(head + fx + NextValue, fy, head);
    PrefixExtended(head + fx + NextValue + fy, NextValue, head);
    PrefixExtended(head + fx + NextValue + fy + NextValue, fz, head);
    PrefixExtended(head + fx + NextValue + fy + NextValue + fz, KeyframeClose, head);
    head + fx + NextValue + fy + NextValue + fz + KeyframeClose
  }

  /** The fragment of one keyframe: its time and the x, y and z of its first data point. */
  function KeyframeText(num: real -> string, k: Keyframe): string {
    CreateKeyframe(num, k.time, k.x, k.y, k.z)
  }

  /** The three rewritten expressions appear in the fragment one after the other, x before y
      before z, none of them overlapping the next. */
  lemma KeyframeEmbedsValues(num: real -> string, time: real, x: string, y: string, z: string)
    ensures var r := CreateKeyframe(num, time, x, y, z);
      exists i, j, l ::
        IsInfixAt(FixedValue(x), r, i) && IsInfixAt(FixedValue(y), r, j) && IsInfixAt(FixedValue(z), r, l)
        && i + |FixedValue(x)| < j && j + |FixedValue(y)| < l
  {
    var fx, fy, fz := FixedValue(x), FixedValue(y), FixedValue(z);
    var s0 := KeyframeOpen + num(time) + InstanceOpen;
    var s1 := s0 + fx;
    var s2 := s1 + NextValue;
    var s3 := s2 + fy;
    var s4 := s3 + NextValue;
    var s5 := s4 + fz;
    var r := s5 + KeyframeClose;
    assert r == CreateKeyframe(num, time, x, y, z);
    var i, j, l := |s0|, |s2|, |s4|;
    InfixAtEnd(s0, fx);
    InfixExtended(s1, NextValue, fx, i);
    InfixExtended(s2, fy, fx, i);
    InfixExtended(s3, NextValue, fx, i);
    InfixExtended(s4, fz, fx, i);
    InfixExtended(s5, KeyframeClose, fx, i);
    InfixAtEnd(s2, fy);
    InfixExtended(s3, NextValue, fy, j);
    InfixExtended(s4, fz, fy, j);
    InfixExtended(s5, KeyframeClose, fy, j);
    InfixAtEnd(s4, fz);
    InfixExtended(s5, KeyframeClose, fz, l);
  }

  /** A keyframe's own interpolation mode plays no part in its fragment. */
  lemma KeyframeIgnoresInterpolation(num: real -> string, k: Keyframe, mode: string)
    ensures KeyframeText(num, k.(interpolation := mode)) == KeyframeText(num, k)
  {
  }

  // ---------------------------------------------------------------- createTarget

  /** The fragments of keyframes `ks`, in the order given. */
  function Fragments(num: real -> string, ks: seq<Keyframe>): string {
    Join(k => KeyframeText(num, k), ks)
  }

  /** The header of a channel of bone `bone` for the target `targetName`. */
  function ChannelHeader(bone: string, targetName: string): string {
    ChannelOpen + bone + ChannelTarget + targetName + KeyframesOpen
  }

  /** The text `createTarget` returns: nothing for an empty channel, else the header, the
      fragments of the keyframes in stable time order and the closing braces. */
  function TargetText(num: real -> string, bone: string, keys: seq<Keyframe>, targetName: string): string {
    if |keys| == 0 then ""
    else ChannelHeader(bone, targetName) + Fragments(num, SortByTime(keys)) + ChannelClose
  }

  /** A channel's text is empty exactly when the channel has no keyframes; otherwise it opens
      with the header naming the bone and the target and closes the keyframe array and the
      two calls. */
  lemma TargetTextShape(num: real -> string, bone: string, keys: seq<Keyframe>, targetName: string)
    ensures TargetText(num, bone, keys, targetName) == "" <==> keys == []
    ensures keys != [] ==>
      StartsWith(TargetText(num, bone, keys, targetName), ChannelHeader(bone, targetName))
      && EndsWith(TargetText(num, bone, keys, targetName), ChannelClose)
  {
    if keys != [] {
      var h := ChannelHeader(bone, targetName);
      var body := Fragments(num, SortByTime(keys));
      ConcatEndsWith(h + body, ChannelClose);
      ConcatStartsWith(h, body);
      PrefixExtended(h + body, ChannelClose, h);
      assert |h + body + ChannelClose| >= |ChannelClose| > 0;
    }
  }

  /** The channel lists the keyframes as any stable sort by time orders them, which is what
      `Array.prototype.sort` does: each keyframe once, times non-decreasing, equal times kept
      in input order. */
  lemma TargetTextIsStablySorted(num: real -> string, bone: string, keys: seq<Keyframe>, targetName: string, sorted: seq<Keyframe>)
    requires keys != []
    requires IsStableSortOf(sorted, keys)
    ensures TargetText(num, bone, keys, targetName) == ChannelHeader(bone, targetName) + Fragments(num, sorted) + ChannelClose
    ensures multiset(sorted) == multiset(keys)
  {
    StableSortIsSortByTime(sorted, keys);
    SortByTimeIsStableSort(keys);
  }

  /** `createTarget(animator, target, targetName)`. The keyframes are pushed onto a fresh
      array, which is sorted in place; the caller's channel is a value and stays as it was. */
  method CreateTarget(num: real -> string, bone: string, target: seq<Keyframe>, targetName: string)
    returns (text: string)
    ensures text == TargetText(num, bone, target, targetName)
  {
    text := "";
    if |target| > 0 {
      text := text + ChannelHeader(bone, targetName);
      EmptyUnit(ChannelHeader(bone, targetName));
      var targetKeyframes := new Keyframe[|target|];
      for i := 0 to |target|
        invariant forall m :: 0 <= m < i ==> targetKeyframes[m] == target[m]
      {
        targetKeyframes[i] := target[i];
      }
      assert targetKeyframes[..] == target;
      SortInPlace(targetKeyframes);
      ghost var sorted := targetKeyframes[..];
      ghost var f := k => KeyframeText(num, k);
      assert sorted[..0] == [];
      for i := 0 to targetKeyframes.Length
        invariant targetKeyframes[..] == sorted
        invariant text == ChannelHeader(bone, targetName) + Join(f, sorted[..i])
      {
        var keyframe := targetKeyframes[i];
        assert keyframe == sorted[i];
        JoinStep(f, sorted, i);
        Assoc(ChannelHeader(bone, targetName), Join(f, sorted[..i]), f(keyframe));
        text := text + CreateKeyframe(num, keyframe.time, keyframe.x, keyframe.y, keyframe.z);
      }
      assert sorted[..targetKeyframes.Length] == sorted;
      text := text + ChannelClose;
    }
  }

  // ---------------------------------------------------------------- createFileText

  /** What one animator adds to its animation's builder chain: a bone animator adds its
      ROTATION, POSITION and SCALE channels in that order; any other animator adds nothing. */
  function AnimatorText(num: real -> string, animator: Animator): string {
    match animator
    case Other => ""
    case Bone(name, rotation, position, scale) =>
      TargetText(num, name, rotation, "ROTATION")
      + TargetText(num, name, position, "POSITION")
      + TargetText(num, name, scale, "SCALE")
  }

  /** An animator adds nothing exactly when it is not a bone animator or all three of its
      channels are empty. */
  lemma AnimatorTextEmpty(num: real -> string, animator: Animator)
    ensures AnimatorText(num, animator) == "" <==>
      animator.Other? || (animator.rotation == [] && animator.position == [] && animator.scale == [])
  {
    if animator.Bone? {
      TargetTextShape(num, animator.name, animator.rotation, "ROTATION");
      TargetTextShape(num, animator.name, animator.position, "POSITION");
      TargetTextShape(num, animator.name, animator.scale, "SCALE");
    }
  }

  /** What the animators `list` add, in iteration order. */
  function Animators(num: real -> string, list: seq<Animator>): string {
    Join(a => AnimatorText(num, a), list)
  }

  /** The bone animators of `list`, in order: exactly the bone animators of `list` occur in it,
      and a list of bone animators only is kept whole. */
  function Bones(list: seq<Animator>): (bs: seq<Animator>)
    ensures forall i :: 0 <= i < |bs| ==> bs[i].Bone?
    ensures |bs| <= |list|
    ensures forall a :: a in bs <==> a in list && a.Bone?
    ensures (forall i :: 0 <= i < |list| ==> list[i].Bone?) ==> bs == list
    decreases |list|
  {
    if list == [] then []
    else Bones(list[..|list| - 1]) + (if list[|list| - 1].Bone? then [list[|list| - 1]] else [])
  }

  /** Filtering keeps order: the bone animators of `a + b` are those of `a` followed by
      those of `b`. */
  lemma {:induction false} BonesAppend(a: seq<Animator>, b: seq<Animator>)
    ensures Bones(a + b) == Bones(a) + Bones(b)
    decreases |b|
  {
    if b == [] {
      assert a + b == a;
    } else {
      var init, last := b[..|b| - 1], b[|b| - 1];
      BonesAppend(a, init);
      assert (a + b)[..|a + b| - 1] == a + init;
      assert (a + b)[|a + b| - 1] == last;
    }
  }

  /** Animators that are not bone animators contribute nothing: the text is that of the bone
      animators alone, in their order. */
  lemma {:induction false} OtherAnimatorsSkipped(num: real -> string, list: seq<Animator>)
    ensures Animators(num, list) == Animators(num, Bones(list))
    decreases |list|
  {
    var g := a => AnimatorText(num, a);
    if list != [] {
      var init, last := list[..|list| - 1], list[|list| - 1];
      OtherAnimatorsSkipped(num, init);
      assert Join(g, list) == Join(g, init) + g(last);
      if last.Bone? {
        assert Bones(list) == Bones(init) + [last];
        JoinAppend(g, Bones(init), [last]);
        assert [last][..0] == [];
        EmptyUnit(g(last));
      } else {
        assert Bones(list) == Bones(init) + [];
        assert Bones(init) + [] == Bones(init);
        EmptyUnit(Join(g, init));
      }
    }
  }

  /** The opening of an animation's builder chain: its upper-cased name and its length. */
  function BlockHead(num: real -> string, animation: Animation): string {
    DefinitionOpen + UpperString(animation.name) + BuilderOpen + num(animation.length) + LengthClose
  }

  /** The builder chain of one animation. */
  function AnimationBlock(num: real -> string, animation: Animation): string {
    BlockHead(num, animation) + Animators(num, animation.animators) + BuildClose
  }

  /** A builder chain opens as `BlockHead` says, holds the text of the animation's animators
      in their order, and closes with `.build();`. */
  lemma AnimationBlockShape(num: real -> string, animation: Animation, a: seq<Animator>, b: seq<Animator>)
    ensures StartsWith(AnimationBlock(num, animation), BlockHead(num, animation))
    ensures EndsWith(AnimationBlock(num, animation), BuildClose)
    ensures animation.animators == a + b ==>
      AnimationBlock(num, animation) == BlockHead(num, animation) + Animators(num, a) + Animators(num, b) + BuildClose
  {
    var head := BlockHead(num, animation);
    var body := Animators(num, animation.animators);
    ConcatEndsWith(head + body, BuildClose);
    ConcatStartsWith(head, body);
    PrefixExtended(head + body, BuildClose, head);
    if animation.animators == a + b {
      var g := x => AnimatorText(num, x);
      JoinAppend(g, a, b);
      Assoc(head, Join(g, a), Join(g, b));
    }
  }

  /** The builder chains of `animations`, in order. */
  function Blocks(num: real -> string, animations: seq<Animation>): string {
    Join(a => AnimationBlock(num, a), animations)
  }

  /** The opening of the class, named after the project. */
  function ClassHead(projectName: string): string {
    ClassOpen + FileName(projectName) + ClassBrace
  }

  /** The text `createFileText` returns for the project `projectName` and the animations
      chosen for export. */
  function FileText(num: real -> string, projectName: string, animations: seq<Animation>): string {
    ClassHead(projectName) + Blocks(num, animations) + ClassClose
  }

  /** The file opens the class named after the project and closes it. */
  lemma FileTextShape(num: real -> string, projectName: string, animations: seq<Animation>)
    ensures StartsWith(FileText(num, projectName, animations), ClassHead(projectName))
    ensures EndsWith(FileText(num, projectName, animations), ClassClose)
  {
    var head := ClassHead(projectName);
    var body := Blocks(num, animations);
    ConcatEndsWith(head + body, ClassClose);
    ConcatStartsWith(head, body);
    PrefixExtended(head + body, ClassClose, head);
  }

  /** The class is named after the project with the `AdvancedAnimations` suffix. */
  lemma ClassNameEndsWithSuffix(projectName: string)
    ensures StartsWith(ClassHead(projectName), ClassOpen)
    ensures EndsWith(ClassHead(projectName), Suffix + ClassBrace)
  {
    FileNameShape(projectName);
    var f := FileName(projectName);
    ConcatStartsWith(ClassOpen, f + ClassBrace);
    assert ClassHead(projectName) == ClassOpen + (f + ClassBrace);
    assert f + ClassBrace == f[..|f| - |Suffix|] + (Suffix + ClassBrace) by {
      assert f == f[..|f| - |Suffix|] + Suffix;
    }
    assert ClassHead(projectName) == (ClassOpen + f[..|f| - |Suffix|]) + (Suffix + ClassBrace);
    ConcatEndsWith(ClassOpen + f[..|f| - |Suffix|], Suffix + ClassBrace);
  }

  /** Exporting no animations gives an empty class. */
  lemma FileTextOfNoAnimations(num: real -> string, projectName: string)
    ensures FileText(num, projectName, []) == ClassHead(projectName) + ClassClose
  {
    EmptyUnit(ClassHead(projectName));
  }

  /** Each animation contributes its own block, in input order: exporting `a` and then `b`
      is the class for `a` with the blocks of `b` inserted before the closing brace. */
  lemma FileTextAppend(num: real -> string, projectName: string, a: seq<Animation>, b: seq<Animation>)
    ensures FileText(num, projectName, a + b)
      == ClassHead(projectName) + Blocks(num, a) + Blocks(num, b) + ClassClose
  {
    var f := x => AnimationBlock(num, x);
    JoinAppend(f, a, b);
    Assoc(ClassHead(projectName), Join(f, a), Join(f, b));
  }

  /** `createFileText()`, with the project name and the animations chosen for export passed
      in instead of read from globals. */
  method CreateFileText(num: real -> string, projectName: string, animationsToExport: seq<Animation>)
    returns (text: string)
    ensures text == FileText(num, projectName, animationsToExport)
  {
    ghost var blocks := x => AnimationBlock(num, x);
    ghost var head := ClassHead(projectName);
    var name := CreateFileName(projectName);
    text := ClassOpen + name + ClassBrace;
    assert animationsToExport[..0] == [];
    EmptyUnit(head);
    for i := 0 to |animationsToExport|
      invariant text == head + Join(blocks, animationsToExport[..i])
    {
      var animation := animationsToExport[i];
      ghost var animators := x => AnimatorText(num, x);
      ghost var before := text;
      ghost var opening := before + BlockHead(num, animation);
      text := text + BlockHead(num, animation);
      assert animation.animators[..0] == [];
      EmptyUnit(opening);
      for index := 0 to |animation.animators|
        invariant text == opening + Join(animators, animation.animators[..index])
      {
        var animator := animation.animators[index];
        ghost var done := Join(animators, animation.animators[..index]);
        JoinStep(animators, animation.animators, index);
        if !animator.Bone? {
          EmptyUnit(done);
          continue;
        }
        var rotation := CreateTarget(num, animator.name, animator.rotation, "ROTATION");
        text := text + rotation;
        var position := CreateTarget(num, animator.name, animator.position, "POSITION");
        text := text + position;
        var scale := CreateTarget(num, animator.name, animator.scale, "SCALE");
        text := text + scale;
        Assoc(opening + done, rotation, position);
        Assoc(opening + done, rotation + position, scale);
        Assoc(opening, done, rotation + position + scale);
      }
      assert animation.animators[..|animation.animators|] == animation.animators;
      ghost var body := Join(animators, animation.animators);
      text := text + BuildClose;
      JoinStep(blocks, animationsToExport, i);
      Assoc(before, BlockHead(num, animation), body);
      Assoc(before, BlockHead(num, animation) + body, BuildClose);
      Assoc(head, Join(blocks, animationsToExport[..i]), AnimationBlock(num, animation));
    }
    assert animationsToExport[..|animationsToExport|] == animationsToExport;
    text := text + ClassClose;
  }
}
