/** The three `process_command` specialisations (main.cpp:165-204) and the
    dispatch `Command::process` performs through the callback that
    `register_command<CommandId>` (main.cpp:206-209) stores. The parsed
    `po::variables_map` is an input map from option name to value; what a
    handler writes to standard output is returned as a string. */
module Handlers {
  import opened Common
  import opened Commands

  /** `int`, the type `po::value<int>()` stores for `--uid`. */
  newtype Int32 = x: int | -0x8000_0000 <= x < 0x8000_0000

  /** A stored option value: an `int`, a `std::string`, or the value-less
      `--help` switch. */
  datatype OptValue = IntValue(i: Int32) | StringValue(s: string) | Flag

  type VariablesMap = map<string, OptValue>

  /** What a handler does: it returns false and writes nothing, returns true
      after writing `output`, or lets `boost::bad_any_cast` escape when a
      present option holds a value of another type than the one it reads. */
  datatype HandlerResult = Rejected | Accepted(output: string) | BadCast

  /** The value types the option declarations of main.cpp:219-228 give:
      `uid` an `int`, `display-name` and `email` strings. */
  predicate WellTyped(vm: VariablesMap)
  {
    && ("uid" in vm ==> vm["uid"].IntValue?)
    && ("display-name" in vm ==> vm["display-name"].StringValue?)
    && ("email" in vm ==> vm["email"].StringValue?)
  }

  // ---------------------------------------------------------------------
  // `operator<<` on an int: an optional minus sign and decimal digits.

  function DigitChar(d: nat): char
    requires d < 10
  {
    "0123456789"[d]
  }

  predicate IsDigit(c: char)
  {
    '0' <= c <= '9'
  }

  function DigitValue(c: char): nat
    requires IsDigit(c)
  {
    (c as int - '0' as int) as nat
  }

  /** The decimal digits of `n`, most significant first. */
  function Digits(n: nat): (s: string)
    ensures |s| > 0 && forall k :: 0 <= k < |s| ==> IsDigit(s[k])
  {
    if n < 10 then [DigitChar(n)] else Digits(n / 10) + [DigitChar(n % 10)]
  }

  /** The number a string of decimal digits denotes. */
  function DigitsValue(s: string): nat
    requires forall k :: 0 <= k < |s| ==> IsDigit(s[k])
  {
    if |s| == 0 then 0 else DigitsValue(s[..|s| - 1]) * 10 + DigitValue(s[|s| - 1])
  }

  /** Reading the digits back gives the number, and there is no leading zero. */
  lemma {:induction false} DigitsRoundTrip(n: nat)
    ensures DigitsValue(Digits(n)) == n
    ensures Digits(n)[0] == '0' ==> n == 0
  {
    if n >= 10 {
      DigitsRoundTrip(n / 10);
      var s := Digits(n);
      assert s[..|s| - 1] == Digits(n / 10);
    }
  }

  /** `os << x` for an `int` `x`. */
  function Decimal(x: int): string
  {
    if x < 0 then "-" + Digits(-x) else Digits(x)
  }

  /** Inverse of `Decimal` on the strings it produces. */
  function ParseDecimal(s: string): Option<int>
  {
    if |s| > 1 && s[0] == '-' && AllDigits(s[1..]) then Some(0 - DigitsValue(s[1..]))
    else if |s| > 0 && AllDigits(s) then Some(DigitsValue(s))
    else None
  }

  predicate AllDigits(s: string)
  {
    forall k :: 0 <= k < |s| ==> IsDigit(s[k])
  }

  /** The printed uid reads back as the same number. */
  lemma DecimalRoundTrip(x: int)
    ensures ParseDecimal(Decimal(x)) == Some(x)
  {
    var d := Digits(if x < 0 then -x else x);
    DigitsRoundTrip(if x < 0 then -x else x);
    assert AllDigits(d);
    if x < 0 {
      var s := "-" + d;
      assert s == Decimal(x);
      assert s[0] == '-' && s[1..] == d;
    } else {
      assert d == Decimal(x);
      assert IsDigit(d[0]);
    }
  }

  // ---------------------------------------------------------------------
  // The handlers.

  /** The option names a command accepts: the only key set each handler
      takes. */
  function RequiredOptions(id: ECommand): set<string>
  {
    match id
    case OptUserCreate => {"uid", "display-name", "email"}
    case OptUserDelete => {"uid"}
    case OptUserInfo => {"uid"}
  }

  /** A key set with at most as many keys as `required` and all of them is
      exactly `required`: the size test followed by the presence tests. */
  lemma ExactKeys(keys: set<string>, required: set<string>)
    ensures (|keys| <= |required| && required <= keys) <==> keys == required
  {
    if |keys| <= |required| && required <= keys && keys != required {
      assert !(keys <= required);
      var x :| x in keys && x !in required;
      assert required + {x} <= keys;
      assert |required + {x}| == |required| + 1;
      SubsetCard(required + {x}, keys);
    }
  }

  lemma {:induction false} SubsetCard(a: set<string>, b: set<string>)
    requires a <= b
    ensures |a| <= |b|
  {
    if a != {} {
      var x :| x in a;
      SubsetCard(a - {x}, b - {x});
    }
  }

  /** `process_command<OPT_USER_CREATE>` (main.cpp:165-182). */
  function ProcessUserCreate(vm: VariablesMap): (r: HandlerResult)
    ensures r.Rejected? <==> vm.Keys != RequiredOptions(OptUserCreate)
    ensures r.BadCast? <==> vm.Keys == RequiredOptions(OptUserCreate) && !WellTyped(vm)
    ensures r.Accepted? ==>
      r.output == "user created with uid " + Decimal(vm["uid"].i as int)
        + " display-name " + vm["display-name"].s + " and email " + vm["email"].s + "\n"
  {
    ExactKeys(vm.Keys, RequiredOptions(OptUserCreate));
    if |vm| > 3 then Rejected
    else if "uid" !in vm then Rejected
    else if "display-name" !in vm then Rejected
    else if "email" !in vm then Rejected
    else match (vm["uid"], vm["display-name"], vm["email"])
      case (IntValue(uid), StringValue(name), StringValue(email)) =>
        Accepted("user created with uid " + Decimal(uid as int) + " display-name " + name
          + " and email " + email + "\n")
      case _ => BadCast
  }

  /** `process_command<OPT_USER_DELETE>` (main.cpp:184-193). The source
      writes a `' '` and then `" was deleted"`, so two blanks follow the uid. */
  function ProcessUserDelete(vm: VariablesMap): (r: HandlerResult)
    ensures r.Rejected? <==> vm.Keys != RequiredOptions(OptUserDelete)
    ensures r.BadCast? <==> vm.Keys == RequiredOptions(OptUserDelete) && !WellTyped(vm)
    ensures r.Accepted? ==> r.output == "user with uid " + Decimal(vm["uid"].i as int) + "  was deleted\n"
  {
    ExactKeys(vm.Keys, RequiredOptions(OptUserDelete));
    if |vm| > 1 then Rejected
    else if "uid" !in vm then Rejected
    else match vm["uid"]
      case IntValue(uid) => Accepted("user with uid " + Decimal(uid as int) + " " + " was deleted" + "\n")
      case _ => BadCast
  }

  /** `process_command<OPT_USER_INFO>` (main.cpp:195-204). */
  function ProcessUserInfo(vm: VariablesMap): (r: HandlerResult)
    ensures r.Rejected? <==> vm.Keys != RequiredOptions(OptUserInfo)
    ensures r.BadCast? <==> vm.Keys == RequiredOptions(OptUserInfo) && !WellTyped(vm)
    ensures r.Accepted? ==> r.output == "info about user with uid " + Decimal(vm["uid"].i as int) + "\n"
  {
    ExactKeys(vm.Keys, RequiredOptions(OptUserInfo));
    if |vm| > 1 then Rejected
    else if "uid" !in vm then Rejected
    else match vm["uid"]
      case IntValue(uid) => Accepted("info about user with uid " + Decimal(uid as int) + "\n")
      case _ => BadCast
  }

  /** `Command::process` (main.cpp:50-52): the callback stored for the
      command's id. */
  function Process(c: Command, vm: VariablesMap): (r: HandlerResult)
    ensures r.Rejected? <==> vm.Keys != RequiredOptions(c.id)
    ensures WellTyped(vm) ==> !r.BadCast?
  {
    match c.id
    case OptUserCreate => ProcessUserCreate(vm)
    case OptUserDelete => ProcessUserDelete(vm)
    case OptUserInfo => ProcessUserInfo(vm)
  }

  lemma DecimalExamples()
    ensures Decimal(200) == "200" && Decimal(7) == "7"
  {

  }

  /** `user create --uid 200 --display-name foo --email foo@gmail.com`. */
  lemma CreateExample()
    ensures ProcessUserCreate(map["uid" := IntValue(200), "display-name" := StringValue("foo"),
                                  "email" := StringValue("foo@gmail.com")])
      == Accepted("user created with uid " + "200" + " display-name " + "foo" + " and email "
                  + "foo@gmail.com" + "\n")
  {

  }

  /** `user delete --uid 200`. */
  lemma DeleteExample()
    ensures ProcessUserDelete(map["uid" := IntValue(200)])
      == Accepted("user with uid " + "200" + "  was deleted\n")
  {

  }

  /** `user info --uid 7`. */
  lemma InfoExample()
    ensures ProcessUserInfo(map["uid" := IntValue(7)]) == Accepted("info about user with uid " + "7" + "\n")
  {

  }

  /** A missing option, or one the command does not take, makes every
      handler refuse, whatever the values. */
  lemma WrongKeysRejected(c: Command, vm: VariablesMap, extra: string, v: OptValue)
    requires extra !in RequiredOptions(c.id)
    ensures Process(c, vm["uid" := v][extra := v]).Rejected?
    ensures "uid" !in vm ==> Process(c, vm).Rejected?
  {

  }
}
