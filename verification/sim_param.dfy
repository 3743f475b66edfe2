/** `read_sim_param` and the default `sim_param` dictionary. */
module SimParam {
  import opened Results
  import opened Cli

  /** `float(text)`; `None` where it raises ValueError. Binary floating point
      is not modelled: values are reals. */
  type FloatParser = string -> Option<real>

  /** The built-in values of the six numerical parameters. */
  const Defaults: map<string, real> :=
    map["hmin" := 0.005, "cfl" := 0.7, "theta" := 0.9, "vrouting" := 0.1, "dtmax" := 5.0, "slmax" := 0.5]

  /** Option `k` replaces the entry for `k`: `k` is a parameter name and the
      option is not empty. */
  predicate Overrides(params: map<string, real>, opts: Options, k: string)
  {
    k in params && Given(opts, k)
  }

  /** The loop of `read_sim_param` from position `i` of the iteration order
      on, with `params` the dictionary so far. A text `float` refuses stops
      the program. */
  function OverrideFrom(params: map<string, real>, opts: Options, order: seq<string>, toFloat: FloatParser)
    : (r: Result<map<string, real>, Fatal>)
    // the key set never changes
    ensures r.Success? ==> r.value.Keys == params.Keys
    // the loop finishes exactly when every overriding text is a number
    ensures r.Success? <==>
      forall i :: 0 <= i < |order| && Overrides(params, opts, order[i]) ==> toFloat(Get(opts, order[i])).Some?
    // an entry changes exactly when its key is visited with a non-empty option
    ensures r.Success? ==> forall k :: k in params ==>
      r.value[k] == if k in order && Given(opts, k) then toFloat(Get(opts, k)).value else params[k]
    // the error names the first key visited whose text is not a number
    ensures r.Failure? ==>
      exists i :: (0 <= i < |order| && Overrides(params, opts, order[i]) &&
                   toFloat(Get(opts, order[i])).None? && r.error == BadNumber(order[i]) &&
                   forall j :: 0 <= j < i && Overrides(params, opts, order[j]) ==> toFloat(Get(opts, order[j])).Some?)
    decreases |order|
  {
    if |order| == 0 then Success(params)
    else
      var k := order[0];
      if Overrides(params, opts, k) then
        match toFloat(Get(opts, k))
        case None => Failure(BadNumber(k))
        case Some(x) => OverrideFrom(params[k := x], opts, order[1..], toFloat)
      else
        OverrideFrom(params, opts, order[1..], toFloat)
  }

  /** `read_sim_param(msgr, opts, sim_param)` on the default dictionary, with
      `order` the order in which `opts.iteritems()` visits the options. */
  function ReadSimParam(opts: Options, order: seq<string>, toFloat: FloatParser): (r: Result<map<string, real>, Fatal>)
    requires Enumerates(opts, order)
    ensures r.Success? ==> r.value.Keys == Defaults.Keys
    ensures r.Success? <==> forall k :: k in Defaults && Given(opts, k) ==> toFloat(opts[k]).Some?
    ensures r.Success? ==> forall k :: k in Defaults ==>
      r.value[k] == if Given(opts, k) then toFloat(opts[k]).value else Defaults[k]
    ensures r.Failure? ==>
      exists k :: (k in Defaults && Given(opts, k) && toFloat(opts[k]).None? && r.error == BadNumber(k))
  {
    OverrideFrom(Defaults, opts, order, toFloat)
  }

  /** Whether the loop succeeds, and the dictionary it leaves, do not depend
      on the order the options are visited in; which refused text is
      reported does (`ReportedErrorDependsOnOrder`). */
  lemma ReadSimParamOrderFree(opts: Options, order1: seq<string>, order2: seq<string>, toFloat: FloatParser)
    requires Enumerates(opts, order1) && Enumerates(opts, order2)
    ensures ReadSimParam(opts, order1, toFloat).Success? <==> ReadSimParam(opts, order2, toFloat).Success?
    ensures ReadSimParam(opts, order1, toFloat).Success? ==>
      ReadSimParam(opts, order1, toFloat) == ReadSimParam(opts, order2, toFloat)
  {
    var r1, r2 := ReadSimParam(opts, order1, toFloat), ReadSimParam(opts, order2, toFloat);
    if r1.Success? && r2.Success? {
      assert r1.value == r2.value;
    }
  }

  /** With two refused texts, the one visited first is reported. */
  lemma ReportedErrorDependsOnOrder(opts: Options, toFloat: FloatParser)
    requires opts == map["hmin" := "x", "cfl" := "y"]
    requires toFloat("x") == None && toFloat("y") == None
    ensures Enumerates(opts, ["hmin", "cfl"]) && Enumerates(opts, ["cfl", "hmin"])
    ensures ReadSimParam(opts, ["hmin", "cfl"], toFloat) == Failure(BadNumber("hmin"))
    ensures ReadSimParam(opts, ["cfl", "hmin"], toFloat) == Failure(BadNumber("cfl"))
  {
    assert Overrides(Defaults, opts, "hmin") && Overrides(Defaults, opts, "cfl");
  }

  /** Without numerical options the defaults go to the simulation unchanged. */
  lemma NoOptionsKeepDefaults(opts: Options, order: seq<string>, toFloat: FloatParser)
    requires Enumerates(opts, order)
    requires forall k :: k in Defaults ==> !Given(opts, k)
    ensures ReadSimParam(opts, order, toFloat) == Success(Defaults)
  {
    var r := ReadSimParam(opts, order, toFloat);
    assert r.value == Defaults;
  }
}
