/**
 * The application (Application.cpp): the ordered list of engine modules and
 * the loops that run one lifecycle phase over it, stopping at the first
 * module that answers false, and the frame that chains the update phases.
 * What each module answers is an input, one answer per module position;
 * the calls made are recorded in order. The modules' own behaviour, the
 * frame timing and the object picking of ProcessObjectSelection are not
 * part of this model.
 */
module Application {
  import opened Common
  import opened SceneGraph
  import opened Models

  datatype ModuleKind =
    | WindowModule
    | GuiManagerModule
    | InputModule
    | TexturesModule
    | CameraModule
    | OpenGlModule
    | FileSystemModule
    | RenderModule

  datatype Phase = InitPhase | AwakePhase | StartPhase | PreUpdatePhase | UpdatePhase | PostUpdatePhase | CleanUpPhase

  /** A call the application makes: a module's phase callback, the object picking, or the end-of-frame clean-up. */
  datatype Call = Callback(index: nat, phase: Phase) | Selection | Finish

  /** The modules in the order the constructor adds them. */
  const MODULES: seq<ModuleKind> :=
    [WindowModule, GuiManagerModule, InputModule, TexturesModule, CameraModule, OpenGlModule, FileSystemModule, RenderModule]

  /** Every one of the first `n` modules answers true. */
  predicate AllAnswer(answers: nat -> bool, n: nat)
  {
    forall i :: 0 <= i < n ==> answers(i)
  }

  /** The first of the modules `from` .. `n`-1 that answers false, or `n` when none does. */
  function FirstRefusal(answers: nat -> bool, from: nat, n: nat): (k: nat)
    requires from <= n
    ensures from <= k <= n
    ensures forall i :: from <= i < k ==> answers(i)
    ensures k < n ==> !answers(k)
    decreases n - from
  {
    if from == n then n
    else if !answers(from) then from
    else FirstRefusal(answers, from + 1, n)
  }

  /** The refusal position is the only one with every earlier module agreeing. */
  lemma FirstRefusalUnique(answers: nat -> bool, n: nat, k: nat)
    requires k <= n && (forall i :: 0 <= i < k ==> answers(i)) && (k < n ==> !answers(k))
    ensures FirstRefusal(answers, 0, n) == k
  {
  }

  /** The callbacks one phase makes: modules in order, up to and including the first that answers false. */
  function PhaseCalls(phase: Phase, answers: nat -> bool, n: nat): seq<Call>
  {
    var k := FirstRefusal(answers, 0, n);
    var count := if k < n then k + 1 else n;
    seq(count, i requires 0 <= i < count => Callback(i, phase))
  }

  /**
   * One phase stops at the first refusal: the modules are called in order
   * from the first, every one called before the last answered true, the
   * last one called answered false exactly when the phase fails, and all
   * modules are called when it succeeds.
   */
  lemma PhaseStopsAtFirstRefusal(phase: Phase, answers: nat -> bool, n: nat)
    ensures var cs := PhaseCalls(phase, answers, n);
      (forall i :: 0 <= i < |cs| ==> cs[i] == Callback(i, phase))
      && (forall i :: 0 <= i < |cs| - 1 ==> answers(i))
      && (AllAnswer(answers, n) <==> |cs| == n && forall i :: 0 <= i < n ==> answers(i))
      && (!AllAnswer(answers, n) ==> 0 < |cs| <= n && !answers(|cs| - 1))
  {
    var k := FirstRefusal(answers, 0, n);
    if !AllAnswer(answers, n) {
      assert k < n;
    }
  }

  /** The update phases of a frame: each runs only when every module answered true in the one before. */
  function UpdatePhases(n: nat, pre: nat -> bool, upd: nat -> bool, post: nat -> bool): seq<Call>
  {
    PhaseCalls(PreUpdatePhase, pre, n)
    + if !AllAnswer(pre, n) then []
      else PhaseCalls(UpdatePhase, upd, n) + [Selection] + if !AllAnswer(upd, n) then [] else PhaseCalls(PostUpdatePhase, post, n)
  }

  /** The frame's callbacks after the exit check: the update phases unless a quit was seen, then the clean-up. */
  function FrameCalls(n: nat, quit: bool, pre: nat -> bool, upd: nat -> bool, post: nat -> bool): seq<Call>
  {
    (if quit then [] else UpdatePhases(n, pre, upd, post)) + [Finish]
  }

  /** Whether a phase was called on some module. */
  predicate Ran(cs: seq<Call>, phase: Phase)
  {
    exists i :: 0 <= i < |cs| && cs[i].Callback? && cs[i].phase == phase
  }

  lemma RanAppend(a: seq<Call>, b: seq<Call>, phase: Phase)
    ensures Ran(a + b, phase) <==> Ran(a, phase) || Ran(b, phase)
  {
    if Ran(a + b, phase) {
      var i :| 0 <= i < |a + b| && (a + b)[i].Callback? && (a + b)[i].phase == phase;
      if i >= |a| {
        assert b[i - |a|] == (a + b)[i];
      }
    }
    if Ran(a, phase) {
      var i :| 0 <= i < |a| && a[i].Callback? && a[i].phase == phase;
      assert (a + b)[i] == a[i];
    }
    if Ran(b, phase) {
      var i :| 0 <= i < |b| && b[i].Callback? && b[i].phase == phase;
      assert (a + b)[|a| + i] == b[i];
    }
  }

  lemma RanPhaseCalls(phase: Phase, answers: nat -> bool, n: nat, other: Phase)
    ensures Ran(PhaseCalls(phase, answers, n), other) <==> other == phase && n > 0
  {
    var cs := PhaseCalls(phase, answers, n);
    if n > 0 {
      assert cs[0] == Callback(0, phase);
    }
  }

  /** Which phases a frame calls. */
  lemma RanFrame(n: nat, quit: bool, pre: nat -> bool, upd: nat -> bool, post: nat -> bool, phase: Phase)
    ensures Ran(FrameCalls(n, quit, pre, upd, post), phase) <==>
      !quit && n > 0 &&
      (phase == PreUpdatePhase
       || (phase == UpdatePhase && AllAnswer(pre, n))
       || (phase == PostUpdatePhase && AllAnswer(pre, n) && AllAnswer(upd, n)))
  {
    var p, u, q := PhaseCalls(PreUpdatePhase, pre, n), PhaseCalls(UpdatePhase, upd, n), PhaseCalls(PostUpdatePhase, post, n);
    RanPhaseCalls(PreUpdatePhase, pre, n, phase);
    RanPhaseCalls(UpdatePhase, upd, n, phase);
    RanPhaseCalls(PostUpdatePhase, post, n, phase);
    assert !Ran([Finish], phase) && !Ran([Selection], phase) && !Ran([], phase);
    var tail := if !AllAnswer(upd, n) then [] else q;
    RanAppend(u, [Selection], phase);
    RanAppend(u + [Selection], tail, phase);
    var rest := if !AllAnswer(pre, n) then [] else u + [Selection] + tail;
    RanAppend(p, rest, phase);
    var body := if quit then [] else p + rest;
    assert body == if quit then [] else UpdatePhases(n, pre, upd, post);
    RanAppend(body, [Finish], phase);
  }

  /**
   * The phase gating of Application::Update: the frame always ends with the
   * clean-up; the module updates and the object picking run exactly when no
   * quit was seen and every pre-update succeeded; the post-updates run
   * exactly when, besides, every update succeeded (and there is a module).
   */
  lemma FrameGating(n: nat, quit: bool, pre: nat -> bool, upd: nat -> bool, post: nat -> bool)
    ensures var cs := FrameCalls(n, quit, pre, upd, post);
      |cs| > 0 && cs[|cs| - 1] == Finish
      && (Ran(cs, PreUpdatePhase) <==> !quit && n > 0)
      && (Selection in cs <==> !quit && AllAnswer(pre, n))
      && (Ran(cs, UpdatePhase) <==> !quit && AllAnswer(pre, n) && n > 0)
      && (Ran(cs, PostUpdatePhase) <==> !quit && AllAnswer(pre, n) && AllAnswer(upd, n) && n > 0)
  {
    RanFrame(n, quit, pre, upd, post, PreUpdatePhase);
    RanFrame(n, quit, pre, upd, post, UpdatePhase);
    RanFrame(n, quit, pre, upd, post, PostUpdatePhase);
    var p, u := PhaseCalls(PreUpdatePhase, pre, n), PhaseCalls(UpdatePhase, upd, n);
    if !quit && !AllAnswer(pre, n) {
      assert forall i :: 0 <= i < |p| ==> p[i].Callback?;
      assert Selection !in p + [Finish];
    }
    if !quit && AllAnswer(pre, n) {
      assert (p + u + [Selection])[|p| + |u|] == Selection;
    }
  }

  class Application {
    var moduleList: seq<ModuleKind>
    var requestExit: bool
    /** The calls made so far, oldest first. */
    var calls: seq<Call>

    /** Application(): the eight modules added in their fixed order, each initialised as it is added. */
    constructor()
      ensures moduleList == MODULES && !requestExit
      ensures calls == seq(|MODULES|, i requires 0 <= i < |MODULES| => Callback(i, InitPhase))
    {
      moduleList := [];
      requestExit := false;
      calls := [];
      new;
      var i := 0;
      while i < |MODULES|
        invariant 0 <= i <= |MODULES|
        invariant moduleList == MODULES[..i] && !requestExit
        invariant calls == seq(i, j requires 0 <= j < i => Callback(j, InitPhase))
      {
        AddModule(MODULES[i]);
        assert MODULES[..i + 1] == MODULES[..i] + [MODULES[i]];
        i := i + 1;
      }
    }

    /** Application::AddModule: the module is initialised, then appended. */
    method AddModule(m: ModuleKind)
      modifies this`moduleList, this`calls
      ensures moduleList == old(moduleList) + [m]
      ensures calls == old(calls) + [Callback(|old(moduleList)|, InitPhase)]
    {
      calls := calls + [Callback(|moduleList|, InitPhase)];
      moduleList := moduleList + [m];
    }

    /** The loop every lifecycle phase shares: the modules in order, stopping after the first false answer. */
    method RunPhase(phase: Phase, answers: nat -> bool) returns (result: bool)
      modifies this`calls
      ensures result == AllAnswer(answers, |moduleList|)
      ensures calls == old(calls) + PhaseCalls(phase, answers, |moduleList|)
    {
      result := true;
      var i := 0;
      while i < |moduleList|
        invariant 0 <= i <= |moduleList|
        invariant result && forall j :: 0 <= j < i ==> answers(j)
        invariant calls == old(calls) + seq(i, j requires 0 <= j < i => Callback(j, phase))
      {
        calls := calls + [Callback(i, phase)];
        result := answers(i);
        if !result {
          FirstRefusalUnique(answers, |moduleList|, i);
          return;
        }
        i := i + 1;
      }
      FirstRefusalUnique(answers, |moduleList|, i);
    }

    /** Application::Awake. */
    method Awake(answers: nat -> bool) returns (result: bool)
      modifies this`calls
      ensures result == AllAnswer(answers, |moduleList|)
      ensures calls == old(calls) + PhaseCalls(AwakePhase, answers, |moduleList|)
    {
      result := RunPhase(AwakePhase, answers);
    }

    /** Application::Start. */
    method Start(answers: nat -> bool) returns (result: bool)
      modifies this`calls
      ensures result == AllAnswer(answers, |moduleList|)
      ensures calls == old(calls) + PhaseCalls(StartPhase, answers, |moduleList|)
    {
      result := RunPhase(StartPhase, answers);
    }

    /** Application::PreUpdate. */
    method PreUpdate(answers: nat -> bool) returns (result: bool)
      modifies this`calls
      ensures result == AllAnswer(answers, |moduleList|)
      ensures calls == old(calls) + PhaseCalls(PreUpdatePhase, answers, |moduleList|)
    {
      result := RunPhase(PreUpdatePhase, answers);
    }

    /** Application::DoUpdate: the update loop, then the object picking whatever the modules answered. */
    method DoUpdate(answers: nat -> bool) returns (result: bool)
      modifies this`calls
      ensures result == AllAnswer(answers, |moduleList|)
      ensures calls == old(calls) + PhaseCalls(UpdatePhase, answers, |moduleList|) + [Selection]
    {
      result := RunPhase(UpdatePhase, answers);
      calls := calls + [Selection];
    }

    /** Application::PostUpdate. */
    method PostUpdate(answers: nat -> bool) returns (result: bool)
      modifies this`calls
      ensures result == AllAnswer(answers, |moduleList|)
      ensures calls == old(calls) + PhaseCalls(PostUpdatePhase, answers, |moduleList|)
    {
      result := RunPhase(PostUpdatePhase, answers);
    }

    /** Application::CleanUp: in the same order as the other phases. */
    method CleanUp(answers: nat -> bool) returns (result: bool)
      modifies this`calls
      ensures result == AllAnswer(answers, |moduleList|)
      ensures calls == old(calls) + PhaseCalls(CleanUpPhase, answers, |moduleList|)
    {
      result := RunPhase(CleanUpPhase, answers);
    }

    /** Application::FinishUpdate: the loaded model, when there is one, drops its destroyed objects. */
    method FinishUpdate(scene: Model?)
      modifies this`calls, scene
      ensures calls == old(calls) + [Finish]
      ensures scene != null ==> scene.gameObjects == Filter(old(scene.gameObjects), Outside(old(MarkedObjects(scene.gameObjects))))
    {
      if scene != null {
        scene.CleanUpDestroyedObjects();
      }
      calls := calls + [Finish];
    }

    /**
     * Application::Update: nothing at all once exit was requested;
     * otherwise the update phases run unless a quit event was seen, and the
     * frame always ends with FinishUpdate.
     */
    method Update(quit: bool, pre: nat -> bool, upd: nat -> bool, post: nat -> bool, scene: Model?) returns (ret: bool)
      modifies this`calls, scene
      ensures requestExit ==> !ret && calls == old(calls) && (scene != null ==> unchanged(scene))
      ensures !requestExit ==>
        ret == (!quit && AllAnswer(pre, |moduleList|) && AllAnswer(upd, |moduleList|) && AllAnswer(post, |moduleList|))
        && calls == old(calls) + FrameCalls(|moduleList|, quit, pre, upd, post)
        && (scene != null ==> scene.gameObjects == Filter(old(scene.gameObjects), Outside(old(MarkedObjects(scene.gameObjects)))))
    {
      if requestExit {
        return false;
      }
      ret := RunFrame(quit, pre, upd, post);
      FinishUpdate(scene);
    }

    /** The body of Application::Update between the exit check and FinishUpdate: each phase runs while everything before answered true. */
    method RunFrame(quit: bool, pre: nat -> bool, upd: nat -> bool, post: nat -> bool) returns (ret: bool)
      modifies this`calls
      ensures ret == (!quit && AllAnswer(pre, |moduleList|) && AllAnswer(upd, |moduleList|) && AllAnswer(post, |moduleList|))
      ensures calls == old(calls) + if quit then [] else UpdatePhases(|moduleList|, pre, upd, post)
    {
      ret := true;
      if quit {
        ret := false;
      }
      ghost var p, u, q := PhaseCalls(PreUpdatePhase, pre, |moduleList|),
        PhaseCalls(UpdatePhase, upd, |moduleList|), PhaseCalls(PostUpdatePhase, post, |moduleList|);
      if ret {
        ret := PreUpdate(pre);
        assert calls == old(calls) + p;
      }
      if ret {
        ret := DoUpdate(upd);
        assert calls == old(calls) + (p + (u + [Selection]));
      }
      if ret {
        ret := PostUpdate(post);
        assert calls == old(calls) + (p + (u + [Selection] + q));
      }
    }
  }
}
