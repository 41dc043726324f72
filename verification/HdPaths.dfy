/** Derivation paths one step at a time: a path with one more step derives the child of what the path
    derives (lib/bitcore/hdprivatekey.ts and lib/bitcore/hdpublickey.ts). */
module HdPaths {
  import opened Buffers
  import opened EllipticCurve
  import opened HdKeys
  import opened HdStrings

  // ----- Splitting -----

  /** The steps with a slash between each two. */
  function Join(steps: seq<string>): string {
    if steps == [] then ""
    else if |steps| == 1 then steps[0]
    else steps[0] + "/" + Join(steps[1..])
  }

  predicate SlashFree(steps: seq<string>) {
    forall i :: 0 <= i < |steps| ==> '/' !in steps[i]
  }

  /** The steps of a path are the one list of slash-free strings that joins to it. */
  lemma StepsIff(path: string, steps: seq<string>)
    ensures steps == Steps(path) <==> steps != [] && SlashFree(steps) && Join(steps) == path
  {
    StepsJoin(path);
    if steps != [] && SlashFree(steps) && Join(steps) == path {
      JoinSteps(steps);
    }
  }

  lemma {:induction false} StepsJoin(path: string)
    ensures SlashFree(Steps(path)) && Join(Steps(path)) == path
  {
    if path != "" {
      var rest := Steps(path[1..]);
      StepsJoin(path[1..]);
      if path[0] == '/' {
        assert Steps(path)[1..] == rest;
      } else {
        assert Steps(path)[1..] == rest[1..] && Steps(path)[0] == [path[0]] + rest[0];
        assert path == [path[0]] + path[1..];
      }
    }
  }

  lemma {:induction false} JoinSteps(steps: seq<string>)
    requires steps != [] && SlashFree(steps)
    ensures Steps(Join(steps)) == steps
    decreases |steps|
  {
    if |steps| == 1 {
      OneStep(steps[0]);
      assert steps == [steps[0]];
    } else {
      JoinSteps(steps[1..]);
      FirstStep(steps[0], Join(steps[1..]));
      assert steps[0] + "/" + Join(steps[1..]) == steps[0] + ("/" + Join(steps[1..]));
      assert steps == [steps[0]] + steps[1..];
    }
  }

  lemma {:induction false} OneStep(s: string)
    requires '/' !in s
    ensures Steps(s) == [s]
  {
    if s != "" {
      OneStep(s[1..]);
      assert s == [s[0]] + s[1..];
    }
  }

  lemma {:induction false} FirstStep(s: string, rest: string)
    requires '/' !in s
    ensures Steps(s + ("/" + rest)) == [s] + Steps(rest)
  {
    var path := s + ("/" + rest);
    if s == "" {
      assert path == "/" + rest && path[1..] == rest;
    } else {
      FirstStep(s[1..], rest);
      assert path[1..] == s[1..] + ("/" + rest) && path[0] == s[0];
      assert s == [s[0]] + s[1..];
    }
  }

  lemma {:induction false} StepsSnoc(path: string, step: string)
    requires '/' !in step
    ensures Steps(path + ("/" + step)) == Steps(path) + [step]
  {
    var longer := path + ("/" + step);
    if path == "" {
      FirstStep("", step);
      OneStep(step);
    } else {
      StepsSnoc(path[1..], step);
      assert longer[1..] == path[1..] + ("/" + step) && longer[0] == path[0];
    }
  }

  // ----- Index lists -----

  /** Deriving along a list is deriving its last index from what the front derives; an index outside
      0 .. 2^32 - 1 anywhere makes it throw, the empty list returns the key itself. */
  lemma PrivatePathSnoc(env: Env, k: HDPrivateKey, path: seq<int>, last: int, nonCompliant: bool)
    requires ValidPrivate(env, k)
    ensures DerivePrivatePath(env, k, [], nonCompliant) == Some(k)
    ensures var front := DerivePrivatePath(env, k, path, nonCompliant);
      DerivePrivatePath(env, k, path + [last], nonCompliant) ==
        if front.None? || !(0 <= last < 0x1_0000_0000) then None
        else DerivePrivate(env, front.value, last, false, nonCompliant)
  {
    hide ReducePrivate, DerivePrivate;
    var longer := path + [last];
    NoStep(env, k, nonCompliant);
    ReducePrivateSnoc(env, k, path, last, nonCompliant);
    assert forall i :: 0 <= i < |path| ==> longer[i] == path[i];
    assert longer[|path|] == last;
  }

  lemma NoStep(env: Env, k: HDPrivateKey, nonCompliant: bool)
    requires ValidPrivate(env, k)
    ensures ReducePrivate(env, k, [], nonCompliant) == Some(k)
  {
  }

  lemma {:induction false} ReducePrivateSnoc(env: Env, k: HDPrivateKey, path: seq<int>, last: int, nonCompliant: bool)
    requires ValidPrivate(env, k)
    ensures var front := ReducePrivate(env, k, path, nonCompliant);
      ReducePrivate(env, k, path + [last], nonCompliant) ==
        if front.None? then None else DerivePrivate(env, front.value, last, false, nonCompliant)
    decreases |path|
  {
    hide DerivePrivate, Lawful;
    var longer := path + [last];
    var none: seq<int> := [];
    if path == [] {
      assert longer[0] == last && longer[1..] == none;
    } else {
      assert longer[0] == path[0] && longer[1..] == path[1..] + [last];
      var child := DerivePrivate(env, k, path[0], false, nonCompliant);
      if child.Some? {
        ReducePrivateSnoc(env, child.value, path[1..], last, nonCompliant);
      }
    }
  }

  lemma PublicPathSnoc(env: Env, k: HDPublicKey, path: seq<int>, last: int)
    requires k.point.Affine?
    ensures DerivePublicPath(env, k, []) == Some(k)
    ensures var front := DerivePublicPath(env, k, path);
      DerivePublicPath(env, k, path + [last]) ==
        if front.None? || !(0 <= last < 0x8000_0000) then None else DerivePublic(env, front.value, last, false)
  {
    hide ReducePublic, DerivePublic;
    var longer := path + [last];
    NoPublicStep(env, k);
    ReducePublicSnoc(env, k, path, last);
    assert forall i :: 0 <= i < |path| ==> longer[i] == path[i];
    assert longer[|path|] == last;
  }

  lemma NoPublicStep(env: Env, k: HDPublicKey)
    requires k.point.Affine?
    ensures ReducePublic(env, k, []) == Some(k)
  {
  }

  lemma {:induction false} ReducePublicSnoc(env: Env, k: HDPublicKey, path: seq<int>, last: int)
    requires k.point.Affine?
    ensures var front := ReducePublic(env, k, path);
      ReducePublic(env, k, path + [last]) ==
        if front.None? then None else DerivePublic(env, front.value, last, false)
    decreases |path|
  {
    hide DerivePublic;
    var longer := path + [last];
    var none: seq<int> := [];
    if path == [] {
      assert longer[0] == last && longer[1..] == none;
    } else {
      assert longer[0] == path[0] && longer[1..] == path[1..] + [last];
      var child := DerivePublic(env, k, path[0], false);
      if child.Some? {
        ReducePublicSnoc(env, child.value, path[1..], last);
      }
    }
  }

  // ----- Path strings -----

  /** The index of one step of a private path: its number, plus 2^31 before a closing quote; a step
      without text or with a minus sign in front is refused. */
  predicate StepMeans(number: Number, step: string, i: Option<int>) {
    var quoted := step != "" && step[|step| - 1] == '\'';
    var text := if quoted then step[..|step| - 1] else step;
    if text == "" || text[0] == '-' || number(text) == None then i == None
    else i == Some(number(text).value + if quoted then 0x8000_0000 else 0)
  }

  /** Only the root itself, written m or M with or without a quote, derives the key itself; paths with
      another first step throw; one more step derives the child at that step's index. */
  lemma PrivateStringSnoc(env: Env, number: Number, k: HDPrivateKey, path: string, step: string, nonCompliant: bool)
    returns (i: Option<int>)
    requires ValidPrivate(env, k) && '/' !in step
    ensures StepMeans(number, step, i)
    ensures DerivePrivateString(env, number, k, step, nonCompliant) ==
      if step == "m" || step == "M" || step == "m'" || step == "M'" then Some(k) else None
    ensures var front := DerivePrivateString(env, number, k, path, nonCompliant);
      DerivePrivateString(env, number, k, path + ("/" + step), nonCompliant) ==
        if front.None? || i.None? || !(0 <= i.value < 0x1_0000_0000) then None
        else DerivePrivate(env, front.value, i.value, false, nonCompliant)
  {
    hide DerivePrivatePath, DerivePrivate, Steps, PrivateIndexes, PrivateIndex;
    i := PrivateIndex(number, step);
    IndexMeans(number, step);
    OneStep(step);
    StepsSnoc(path, step);
    ParseSnoc(number, path, step);
    PrivatePathSnoc(env, k, [], 0, nonCompliant);
    var ix := ParsePrivatePath(number, path);
    if ix.Some? && i.Some? {
      PrivatePathSnoc(env, k, ix.value, i.value, nonCompliant);
    }
  }

  lemma IndexMeans(number: Number, step: string)
    ensures StepMeans(number, step, PrivateIndex(number, step))
  {
  }

  lemma ParseSnoc(number: Number, path: string, step: string)
    requires '/' !in step
    ensures ParsePrivatePath(number, step) == if RootAlias(step) then Some([]) else None
    ensures var ix, i := ParsePrivatePath(number, path), PrivateIndex(number, step);
      ParsePrivatePath(number, path + ("/" + step)) ==
        if ix.Some? && i.Some? then Some(ix.value + [i.value]) else None
  {
    hide PrivateIndex, PrivateIndexes, Steps;
    var longer := path + ("/" + step);
    OneStep(step);
    StepsSnoc(path, step);
    assert longer[|path|] == '/';
    assert Steps(longer)[0] == Steps(path)[0] && Steps(longer)[1..] == Steps(path)[1..] + [step];
    IndexesSnoc(number, Steps(path)[1..], step);
    if RootAlias(path) {
      OneStep(path);
      NoPrivateIndexes(number);
    }
  }

  lemma NoPrivateIndexes(number: Number)
    ensures PrivateIndexes(number, []) == Some([])
  {
  }

  lemma Alone(i: int)
    ensures [i] + [] == [] + [i]
  {
  }

  lemma {:induction false} IndexesSnoc(number: Number, steps: seq<string>, step: string)
    ensures var ix, i := PrivateIndexes(number, steps), PrivateIndex(number, step);
      PrivateIndexes(number, steps + [step]) == if ix.Some? && i.Some? then Some(ix.value + [i.value]) else None
    decreases |steps|
  {
    hide PrivateIndex;
    var longer := steps + [step];
    var none: seq<string> := [];
    if steps == [] {
      assert longer[0] == step && longer[1..] == none;
      var i := PrivateIndex(number, step);
      if i.Some? {
        Alone(i.value);
      }
    } else {
      assert longer[0] == steps[0] && longer[1..] == steps[1..] + [step];
      IndexesSnoc(number, steps[1..], step);
      var ix, i := PrivateIndexes(number, steps), PrivateIndex(number, step);
      if ix.Some? && i.Some? {
        ConcatAssoc([ix.value[0]], ix.value[1..], [i.value]);
      }
    }
  }

  /** The public side reads no quote anywhere and ignores what the first step says. */
  lemma PublicStringSnoc(env: Env, number: Number, k: HDPublicKey, path: string, step: string)
    requires k.point.Affine? && '/' !in step
    ensures DerivePublicString(env, number, k, step) == if '\'' in step then None else Some(k)
    ensures var front := DerivePublicString(env, number, k, path);
      DerivePublicString(env, number, k, path + ("/" + step)) ==
        if front.None? || '\'' in step || number(step).None? || !(0 <= number(step).value < 0x8000_0000) then None
        else DerivePublic(env, front.value, number(step).value, false)
  {
    hide DerivePublicPath, DerivePublic, Steps, PublicIndexes;
    var longer := path + ("/" + step);
    OneStep(step);
    StepsSnoc(path, step);
    assert Steps(longer)[1..] == Steps(path)[1..] + [step];
    assert longer[|path|] == '/';
    PublicIndexesSnoc(number, Steps(path)[1..], step);
    NoIndexes(number);
    var none: seq<string> := [];
    assert Steps(step)[1..] == none;
    PublicPathSnoc(env, k, [], 0);
    var ix := PublicIndexes(number, Steps(path)[1..]);
    if ix.Some? && number(step).Some? {
      PublicPathSnoc(env, k, ix.value, number(step).value);
    }
  }

  lemma {:induction false} PublicIndexesSnoc(number: Number, steps: seq<string>, step: string)
    ensures var ix, i := PublicIndexes(number, steps), number(step);
      PublicIndexes(number, steps + [step]) == if ix.Some? && i.Some? then Some(ix.value + [i.value]) else None
    decreases |steps|
  {
    var longer := steps + [step];
    var none: seq<string> := [];
    if steps == [] {
      assert longer[0] == step && longer[1..] == none;
      if number(step).Some? {
        Alone(number(step).value);
      }
    } else {
      assert longer[0] == steps[0] && longer[1..] == steps[1..] + [step];
      PublicIndexesSnoc(number, steps[1..], step);
      var ix, i := PublicIndexes(number, steps), number(step);
      if ix.Some? && i.Some? {
        ConcatAssoc([ix.value[0]], ix.value[1..], [i.value]);
      }
    }
  }
}
