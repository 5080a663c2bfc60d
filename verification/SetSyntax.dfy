/** Which options SET accepts, in any order and number, said of the list of options rather than of the loop
    that reads them. */
module SetSyntax {
  import opened Wrappers
  import opened Text
  import opened Store
  import opened Commands

  /** The options from position i on; the argument of a time is skipped. */
  function Options(args: seq<string>, i: nat): seq<SetOption>
    requires i <= |args|
    decreases |args| - i
  {
    if i == |args| then []
    else
      var o := OptionOf(args[i]);
      [o] + if o.TimeOption? && i + 1 < |args| then Options(args, i + 2) else Options(args, i + 1)
  }

  /** A time option at the very end has no argument. */
  predicate Dangling(args: seq<string>, i: nat)
    requires i <= |args|
    decreases |args| - i
  {
    i < |args| &&
    if !OptionOf(args[i]).TimeOption? then Dangling(args, i + 1)
    else i + 1 == |args| || Dangling(args, i + 2)
  }

  /** A time argument that is not refused: a positive number in range, or for EX and PX no duration at all. */
  predicate ValidTime(unit: TimeUnit, arg: string) {
    var n := ParseI64(arg);
    match unit
    case EX => Ignored(EX, arg) || (n.Some? && n.value > 0)
    case PX => Ignored(PX, arg) || (n.Some? && n.value > 0)
    case EXAT => n.Some? && n.value > 0
    case PXAT => n.Some? && n.value > 0
  }

  /** At most one time counts, and it comes last. */
  predicate TimesFine(times: seq<(TimeUnit, string)>, given: bool) {
    times == [] ||
    (!given && ValidTime(times[0].0, times[0].1) && TimesFine(times[1..], !Ignored(times[0].0, times[0].1)))
  }

  lemma TimeStepExact(plan: Plan, unit: TimeUnit, arg: string)
    requires NoTime(plan)
    ensures var r := TimeStep(plan, unit, arg);
            && (r.Ok? <==> ValidTime(unit, arg))
            && (r.Ok? ==> r.value.cond == plan.cond && (NoTime(r.value) <==> Ignored(unit, arg)))
  {
    hide ParseI64;
  }

  /** SET accepts its options if and only if all are known, NX and XX do not both occur, every time has an
      argument, and of the times only the last sets one, a positive one. */
  lemma {:induction false} OptionsAccepted(args: seq<string>, i: nat, plan: Plan)
    requires i <= |args|
    ensures var all := Options(args, i);
            SetOptions(args, i, plan).Ok? <==>
              && NoOption !in all && !Dangling(args, i) && TimesFine(TimeArgs(args, i), !NoTime(plan))
              && !((plan.cond.NX? || NxOption in all) && (plan.cond.XX? || XxOption in all))
    decreases |args| - i
  {
    hide OptionOf, TimeStep, ValidTime, Ignored;
    if i < |args| {
      match OptionOf(args[i])
      case NxOption => OptionsAccepted(args, i + 1, plan.(cond := NX));
      case XxOption => OptionsAccepted(args, i + 1, plan.(cond := XX));
      case TimeOption(unit) =>
        if i + 1 < |args| {
          var arg, times := args[i + 1], TimeArgs(args, i);
          assert times[0] == (unit, arg) && times[1..] == TimeArgs(args, i + 2);
          if NoTime(plan) {
            TimeStepExact(plan, unit, arg);
            var r := TimeStep(plan, unit, arg);
            if r.Ok? { OptionsAccepted(args, i + 2, r.value); }
          }
        }
      case NoOption =>
    }
  }

  lemma TimeKeepsCondition(plan: Plan, unit: TimeUnit, arg: string)
    ensures var r := TimeStep(plan, unit, arg); r.Ok? ==> r.value.cond == plan.cond
  {
    hide ParseI64, TtlArg;
  }

  /** The condition is the one among the options; without any, SET is unconditional. */
  lemma {:induction false} ConditionOfOptions(args: seq<string>, i: nat, plan: Plan)
    requires i <= |args| && SetOptions(args, i, plan).Ok?
    ensures var all, cond := Options(args, i), SetOptions(args, i, plan).value.cond;
            && (cond.NX? <==> plan.cond.NX? || NxOption in all) && (cond.XX? <==> plan.cond.XX? || XxOption in all)
    decreases |args| - i
  {
    hide OptionOf, TimeStep;
    if i < |args| {
      match OptionOf(args[i])
      case NxOption => ConditionOfOptions(args, i + 1, plan.(cond := NX));
      case XxOption => ConditionOfOptions(args, i + 1, plan.(cond := XX));
      case TimeOption(unit) =>
        TimeKeepsCondition(plan, unit, args[i + 1]);
        ConditionOfOptions(args, i + 2, TimeStep(plan, unit, args[i + 1]).value);
      case NoOption =>
    }
  }

  /** For a whole request: when its options are accepted, and what condition they state. */
  lemma SetAccepted(args: seq<string>)
    requires |args| >= 3
    ensures var all := Options(args, 3);
            && (SetPlan(args).Ok? <==> NoOption !in all && !Dangling(args, 3) && TimesFine(TimeArgs(args, 3), false) && !(NxOption in all && XxOption in all))
            && (SetPlan(args).Ok? ==>
                  var cond := SetPlan(args).value.cond;
                  (cond.NX? <==> NxOption in all) && (cond.XX? <==> XxOption in all))
  {
    hide SetOptions, Options, TimeArgs, TimesFine, Dangling;
    OptionsAccepted(args, 3, NO_OPTIONS);
    if SetPlan(args).Ok? { ConditionOfOptions(args, 3, NO_OPTIONS); }
  }
}
