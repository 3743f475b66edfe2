/** `read_maps_names`: the input and output map names, the protection of
    existing outputs, and the coherence check of the Green-Ampt maps. */
module MapNames {
  import opened Results
  import opened Cli

  /** A name dictionary; `None` is Python's `None` (no map given). */
  type Names = map<string, Option<string>>

  /** The keys of `input_map_names`. */
  const InputKeys: set<string> :=
    {"in_z", "in_n", "in_h", "in_rain", "in_inf", "in_eff_por", "in_cap_pressure", "in_hyd_conduct",
     "in_q", "in_bcval", "in_bctype"}

  /** The keys of `output_map_names`. */
  const OutputKeys: set<string> := {"out_h", "out_wse", "out_vx", "out_vy", "out_qx", "out_qy"}

  /** A dictionary with every key mapped to `None`. */
  function NoNames(keys: set<string>): (d: Names)
    ensures d.Keys == keys
    ensures forall k :: k in d ==> d[k] == None
  {
    map k | k in keys :: None
  }

  /** `ga_list`: the three maps of the Green-Ampt infiltration model. */
  const GreenAmptList: seq<string> := ["in_eff_por", "in_cap_pressure", "in_hyd_conduct"]

  /** Both dictionaries, as `read_maps_names` fills them. */
  datatype MapSet = MapSet(inputs: Names, outputs: Names)

  /** `file_exist(gis.Igis.format_id(v))`: whether a map or space-time
      dataset of that name exists. The GIS database is not modelled. */
  type ExistsCheck = string -> bool

  /** Option `k` would overwrite an existing map without permission. */
  predicate Blocked(outputKeys: set<string>, opts: Options, k: string, exists_: ExistsCheck, overwrite: bool)
  {
    k in outputKeys && Given(opts, k) && exists_(Get(opts, k)) && !overwrite
  }

  /** The entry for `k` after the loop: the option's text when the key was
      visited with a non-empty option, the entry before otherwise. */
  function Updated(before: Names, opts: Options, order: seq<string>, k: string): Option<string>
    requires k in before
  {
    if k in order && Given(opts, k) then Some(Get(opts, k)) else before[k]
  }

  /** The loop of `read_maps_names` from the start of `order` on. A known
      input key takes the option's text; a known output key does too, unless
      its map exists and overwriting is off, which stops the program. */
  function CollectNames(names: MapSet, opts: Options, order: seq<string>, exists_: ExistsCheck, overwrite: bool)
    : (r: Result<MapSet, Fatal>)
    // neither key set changes: unknown options touch nothing
    ensures r.Success? ==> r.value.inputs.Keys == names.inputs.Keys && r.value.outputs.Keys == names.outputs.Keys
    // the only way it stops is on a protected output
    ensures r.Failure? ==> r.error.OutputExists?
    decreases |order|
  {
    if |order| == 0 then Success(names)
    else
      var k := order[0];
      var v := Get(opts, k);
      var inputs := if k in names.inputs && v != "" then names.inputs[k := Some(v)] else names.inputs;
      if Blocked(names.outputs.Keys, opts, k, exists_, overwrite) then Failure(OutputExists(v))
      else
        var outputs := if k in names.outputs && v != "" then names.outputs[k := Some(v)] else names.outputs;
        CollectNames(MapSet(inputs, outputs), opts, order[1..], exists_, overwrite)
  }

  /** The loop stops exactly when some visited output is protected, and
      then at the first one, whose option's text the error names. */
  lemma {:induction false} CollectNamesStops(names: MapSet, opts: Options, order: seq<string>, exists_: ExistsCheck,
                                             overwrite: bool)
    ensures var r := CollectNames(names, opts, order, exists_, overwrite);
      && (r.Success? <==> forall i :: 0 <= i < |order| ==> !Blocked(names.outputs.Keys, opts, order[i], exists_, overwrite))
      && (r.Failure? ==>
            exists i :: (0 <= i < |order| && Blocked(names.outputs.Keys, opts, order[i], exists_, overwrite) &&
                         r.error == OutputExists(Get(opts, order[i])) &&
                         forall j :: 0 <= j < i ==> !Blocked(names.outputs.Keys, opts, order[j], exists_, overwrite)))
    decreases |order|
  {
    if |order| > 0 && !Blocked(names.outputs.Keys, opts, order[0], exists_, overwrite) {
      var k0 := order[0];
      var v := Get(opts, k0);
      var inputs := if k0 in names.inputs && v != "" then names.inputs[k0 := Some(v)] else names.inputs;
      var outputs := if k0 in names.outputs && v != "" then names.outputs[k0 := Some(v)] else names.outputs;
      assert outputs.Keys == names.outputs.Keys;
      CollectNamesStops(MapSet(inputs, outputs), opts, order[1..], exists_, overwrite);
      var r := CollectNames(names, opts, order, exists_, overwrite);
      if r.Failure? {
        var i :| 0 <= i < |order[1..]| && Blocked(names.outputs.Keys, opts, order[1..][i], exists_, overwrite) &&
                 r.error == OutputExists(Get(opts, order[1..][i])) &&
                 forall j :: 0 <= j < i ==> !Blocked(names.outputs.Keys, opts, order[1..][j], exists_, overwrite);
        assert order[i + 1] == order[1..][i];
      }
    }
  }

  /** Every key the loop visits with a non-empty option takes that text;
      every other key keeps its entry. */
  lemma {:induction false} CollectNamesUpdates(names: MapSet, opts: Options, order: seq<string>, exists_: ExistsCheck,
                                               overwrite: bool)
    requires CollectNames(names, opts, order, exists_, overwrite).Success?
    ensures var r := CollectNames(names, opts, order, exists_, overwrite).value;
      && (forall k :: k in names.inputs ==> r.inputs[k] == Updated(names.inputs, opts, order, k))
      && (forall k :: k in names.outputs ==> r.outputs[k] == Updated(names.outputs, opts, order, k))
    decreases |order|
  {
    if |order| > 0 {
      var k0 := order[0];
      var v := Get(opts, k0);
      var inputs := if k0 in names.inputs && v != "" then names.inputs[k0 := Some(v)] else names.inputs;
      var outputs := if k0 in names.outputs && v != "" then names.outputs[k0 := Some(v)] else names.outputs;
      CollectNamesUpdates(MapSet(inputs, outputs), opts, order[1..], exists_, overwrite);
      forall k | true
        ensures k in order <==> k == k0 || k in order[1..]
      {
        assert order == [k0] + order[1..];
      }
    }
  }

  /** Over a full enumeration of the options, every key of either
      dictionary ends up holding its option's text when that is not empty,
      and its earlier entry otherwise. */
  lemma CollectNamesFills(names: MapSet, opts: Options, order: seq<string>, exists_: ExistsCheck, overwrite: bool)
    requires Enumerates(opts, order)
    requires CollectNames(names, opts, order, exists_, overwrite).Success?
    ensures var r := CollectNames(names, opts, order, exists_, overwrite).value;
      && (forall k :: k in names.inputs ==> r.inputs[k] == if Given(opts, k) then Some(opts[k]) else names.inputs[k])
      && (forall k :: k in names.outputs ==> r.outputs[k] == if Given(opts, k) then Some(opts[k]) else names.outputs[k])
  {
    var r := CollectNames(names, opts, order, exists_, overwrite).value;
    CollectNamesUpdates(names, opts, order, exists_, overwrite);
    forall k | k in names.inputs
      ensures r.inputs[k] == if Given(opts, k) then Some(opts[k]) else names.inputs[k]
    {
      assert Given(opts, k) ==> k in opts && k in order;
    }
    forall k | k in names.outputs
      ensures r.outputs[k] == if Given(opts, k) then Some(opts[k]) else names.outputs[k]
    {
      assert Given(opts, k) ==> k in opts && k in order;
    }
  }

  /** Over a full enumeration of the options, the loop stops exactly when
      some output key has a non-empty option naming an existing map and
      overwriting is off; the error then carries that name. */
  lemma CollectNamesBlocks(names: MapSet, opts: Options, order: seq<string>, exists_: ExistsCheck, overwrite: bool)
    requires Enumerates(opts, order)
    ensures var r := CollectNames(names, opts, order, exists_, overwrite);
      && (r.Failure? <==> exists k :: k in names.outputs && Given(opts, k) && exists_(opts[k]) && !overwrite)
      && (r.Failure? ==> exists k :: k in names.outputs && Given(opts, k) && opts[k] == r.error.name && exists_(opts[k]))
  {
    CollectNamesStops(names, opts, order, exists_, overwrite);
    var r := CollectNames(names, opts, order, exists_, overwrite);
    if r.Failure? {
      var i :| 0 <= i < |order| && Blocked(names.outputs.Keys, opts, order[i], exists_, overwrite) &&
               r.error == OutputExists(Get(opts, order[i]));
      assert order[i] in names.outputs && Given(opts, order[i]);
    } else {
      forall k | k in names.outputs && Given(opts, k)
        ensures !(exists_(opts[k]) && !overwrite)
      {
        assert k in opts;
        var i :| 0 <= i < |order| && order[i] == k;
        assert !Blocked(names.outputs.Keys, opts, order[i], exists_, overwrite);
      }
    }
  }

  // ---------------------------------------------------------------------
  // The Green-Ampt check as written

  /** `i in input_map_names.values()`. */
  predicate AmongValues(inputs: Names, name: string)
  {
    Some(name) in inputs.Values
  }

  /** The loop that sets `ga_bool`: every pass overwrites the flag with the
      membership test of its own item, so only the last item counts. */
  function GreenAmptFlag(list: seq<string>, inputs: Names, flag: bool): (r: bool)
    ensures |list| == 0 ==> r == flag
    ensures |list| > 0 ==> r == AmongValues(inputs, list[|list| - 1])
    decreases |list|
  {
    if |list| == 0 then flag else GreenAmptFlag(list[1..], inputs, AmongValues(inputs, list[0]))
  }

  /** The coherence check of the source with the name its incompatibility
      test looks for as a parameter: it looks for the option NAMES among the
      map names the user gave. */
  function CheckGreenAmptValues(inputs: Names, rateName: string): (r: Result<Names, Fatal>)
    ensures r.Success? ==> r.value == inputs
    ensures r.Failure? ==> r.error == IncompatibleInfiltration || r.error == GreenAmptIncomplete
  {
    var gaBool := GreenAmptFlag(GreenAmptList, inputs, false);
    if AmongValues(inputs, rateName) && gaBool then Failure(IncompatibleInfiltration)
    else if gaBool && !(forall j :: 0 <= j < |GreenAmptList| ==> AmongValues(inputs, GreenAmptList[j])) then
      Failure(GreenAmptIncomplete)
    else Success(inputs)
  }

  /** The coherence check as the source states it: the incompatibility test
      looks for `'in_f'`, a key that does not exist. */
  function CheckGreenAmptAsWritten(inputs: Names): (r: Result<Names, Fatal>)
    ensures r.Success? ==> r.value == inputs
    ensures r.Failure? ==> r.error == IncompatibleInfiltration || r.error == GreenAmptIncomplete
  {
    CheckGreenAmptValues(inputs, "in_f")
  }

  /** The spelling on its own: when the map names include every name the
      check looks for, `in_inf` among them, the check as written lets the
      configuration through, and the same check looking for `in_inf`
      refuses it as incompatible. */
  lemma RateSpellingMissed(inputs: Names)
    requires AmongValues(inputs, "in_eff_por") && AmongValues(inputs, "in_cap_pressure")
    requires AmongValues(inputs, "in_hyd_conduct") && AmongValues(inputs, "in_inf")
    requires !AmongValues(inputs, "in_f")
    ensures CheckGreenAmptAsWritten(inputs) == Success(inputs)
    ensures CheckGreenAmptValues(inputs, "in_inf") == Failure(IncompatibleInfiltration)
  {
  }

  /** What the check as written decides: it fails exactly when some given
      map is literally called `in_hyd_conduct` and, besides, a map is called
      `in_f` or one of the three option names is not the name of a map. */
  lemma CheckGreenAmptAsWrittenFails(inputs: Names)
    ensures CheckGreenAmptAsWritten(inputs).Failure? <==>
      AmongValues(inputs, "in_hyd_conduct") &&
      (AmongValues(inputs, "in_f") || !AmongValues(inputs, "in_eff_por") || !AmongValues(inputs, "in_cap_pressure"))
  {

  }

  /** The dictionaries `main` hands to `read_maps_names`: every known key
      mapped to `None`. */
  const Unnamed: MapSet := MapSet(NoNames(InputKeys), NoNames(OutputKeys))

  /** What the loop leaves when it starts from `Unnamed` and runs through:
      every known key holds its option's text when that is not empty,
      `None` otherwise. */
  lemma CollectedFromUnnamed(opts: Options, order: seq<string>, exists_: ExistsCheck, overwrite: bool)
    requires Enumerates(opts, order)
    requires CollectNames(Unnamed, opts, order, exists_, overwrite).Success?
    ensures var names := CollectNames(Unnamed, opts, order, exists_, overwrite).value;
      && names.inputs.Keys == InputKeys && names.outputs.Keys == OutputKeys
      && (forall k :: k in InputKeys ==> names.inputs[k] == if Given(opts, k) then Some(opts[k]) else None)
      && (forall k :: k in OutputKeys ==> names.outputs[k] == if Given(opts, k) then Some(opts[k]) else None)
  {
    CollectNamesFills(Unnamed, opts, order, exists_, overwrite);
  }

  /** `read_maps_names` on the dictionaries of `main`. */
  function ReadMapsNames(opts: Options, order: seq<string>, exists_: ExistsCheck, overwrite: bool)
    : (r: Result<MapSet, Fatal>)
    requires Enumerates(opts, order)
    ensures r.Success? ==> r.value.inputs.Keys == InputKeys && r.value.outputs.Keys == OutputKeys
  {
    var names :- CollectNames(Unnamed, opts, order, exists_, overwrite);
    var _ :- CheckGreenAmptAsWritten(names.inputs);
    Success(names)
  }

  /** What `read_maps_names` leaves in the dictionaries: every known key holds
      the text of its option when that is not empty, `None` otherwise. */
  lemma ReadMapsNamesFills(opts: Options, order: seq<string>, exists_: ExistsCheck, overwrite: bool)
    requires Enumerates(opts, order)
    requires ReadMapsNames(opts, order, exists_, overwrite).Success?
    ensures var names := ReadMapsNames(opts, order, exists_, overwrite).value;
      && (forall k :: k in InputKeys ==> names.inputs[k] == if Given(opts, k) then Some(opts[k]) else None)
      && (forall k :: k in OutputKeys ==> names.outputs[k] == if Given(opts, k) then Some(opts[k]) else None)
  {
    assert ReadMapsNames(opts, order, exists_, overwrite) == CollectNames(Unnamed, opts, order, exists_, overwrite);
    CollectedFromUnnamed(opts, order, exists_, overwrite);
  }

  /** An existing output map stops the program, unless overwriting is on,
      before the Green-Ampt check is reached. */
  lemma ReadMapsNamesProtectsOutputs(opts: Options, order: seq<string>, exists_: ExistsCheck, overwrite: bool)
    requires Enumerates(opts, order)
    ensures (exists k :: k in OutputKeys && Given(opts, k) && exists_(opts[k]) && !overwrite) <==>
      ReadMapsNames(opts, order, exists_, overwrite).Failure? &&
      ReadMapsNames(opts, order, exists_, overwrite).error.OutputExists?
    ensures (ReadMapsNames(opts, order, exists_, overwrite).Failure? &&
             ReadMapsNames(opts, order, exists_, overwrite).error.OutputExists?) ==>
      var name := ReadMapsNames(opts, order, exists_, overwrite).error.name;
      exists k :: k in OutputKeys && Given(opts, k) && opts[k] == name && exists_(name)
  {
    CollectNamesBlocks(Unnamed, opts, order, exists_, overwrite);
  }

  /** The check as written only ever fires when some option's text is
      literally `in_hyd_conduct`; for ordinary map names it lets everything
      through, any subset of the Green-Ampt maps included. */
  lemma AsWrittenCheckIsInert(opts: Options, order: seq<string>, exists_: ExistsCheck, overwrite: bool)
    requires Enumerates(opts, order)
    requires forall k :: k in InputKeys ==> Get(opts, k) != "in_hyd_conduct"
    ensures ReadMapsNames(opts, order, exists_, overwrite).Success? <==>
      forall k :: k in OutputKeys && Given(opts, k) ==> !exists_(opts[k]) || overwrite
  {
    ReadMapsNamesProtectsOutputs(opts, order, exists_, overwrite);
    var collected := CollectNames(Unnamed, opts, order, exists_, overwrite);
    if collected.Success? {
      CollectedFromUnnamed(opts, order, exists_, overwrite);
      var inputs := collected.value.inputs;
      assert !AmongValues(inputs, "in_hyd_conduct");
      CheckGreenAmptAsWrittenFails(inputs);
    }
  }

  /** A supplied Green-Ampt map together with an option literally named after
      a key is refused even though no Green-Ampt map is missing from the
      point of view of the keys. */
  lemma AsWrittenRefusesOddName(opts: Options, order: seq<string>, exists_: ExistsCheck, overwrite: bool)
    requires Enumerates(opts, order)
    requires Get(opts, "in_z") == "in_hyd_conduct" && Get(opts, "in_n") == "manning"
    requires forall k :: k in InputKeys && k != "in_z" && k != "in_n" ==> !Given(opts, k)
    requires forall k :: k in OutputKeys ==> !Given(opts, k)
    ensures ReadMapsNames(opts, order, exists_, overwrite) == Failure(GreenAmptIncomplete)
  {
    CollectNamesBlocks(Unnamed, opts, order, exists_, overwrite);
    var collected := CollectNames(Unnamed, opts, order, exists_, overwrite);
    assert collected.Success?;
    CollectedFromUnnamed(opts, order, exists_, overwrite);
    var inputs := collected.value.inputs;
    assert inputs["in_z"] == Some("in_hyd_conduct");
    assert AmongValues(inputs, "in_hyd_conduct");
    assert !AmongValues(inputs, "in_eff_por");
    assert !AmongValues(inputs, "in_f");
    assert GreenAmptFlag(GreenAmptList, inputs, false);
  }

  // ---------------------------------------------------------------------
  // The Green-Ampt check as intended

  /** The user gave a map for input key `k`. */
  predicate Supplied(inputs: Names, k: string)
  {
    k in inputs && inputs[k].Some?
  }

  /** The three Green-Ampt maps come together or not at all, and never
      together with a user-defined infiltration rate (`in_inf`). */
  function CheckGreenAmptIntended(inputs: Names): (r: Result<Names, Fatal>)
    ensures r.Success? ==> r.value == inputs
    ensures r.Failure? ==> r.error == IncompatibleInfiltration || r.error == GreenAmptIncomplete
  {
    var any := Supplied(inputs, "in_eff_por") || Supplied(inputs, "in_cap_pressure") || Supplied(inputs, "in_hyd_conduct");
    var all := Supplied(inputs, "in_eff_por") && Supplied(inputs, "in_cap_pressure") && Supplied(inputs, "in_hyd_conduct");
    if any && Supplied(inputs, "in_inf") then Failure(IncompatibleInfiltration)
    else if any && !all then Failure(GreenAmptIncomplete)
    else Success(inputs)
  }

  /** The intended check accepts exactly the coherent configurations: no
      Green-Ampt map at all, or all three of them and no infiltration rate. */
  lemma GreenAmptIntendedAllOrNone(inputs: Names)
    ensures CheckGreenAmptIntended(inputs).Success? <==>
      (!Supplied(inputs, "in_eff_por") && !Supplied(inputs, "in_cap_pressure") && !Supplied(inputs, "in_hyd_conduct")) ||
      (Supplied(inputs, "in_eff_por") && Supplied(inputs, "in_cap_pressure") && Supplied(inputs, "in_hyd_conduct") &&
       !Supplied(inputs, "in_inf"))
  {
  }

  /** `read_maps_names` with the intended check in place of the one as
      written. */
  function ReadMapsNamesCorrected(opts: Options, order: seq<string>, exists_: ExistsCheck, overwrite: bool)
    : (r: Result<MapSet, Fatal>)
    requires Enumerates(opts, order)
    ensures r.Success? ==> r.value.inputs.Keys == InputKeys && r.value.outputs.Keys == OutputKeys
  {
    var names :- CollectNames(Unnamed, opts, order, exists_, overwrite);
    var _ :- CheckGreenAmptIntended(names.inputs);
    Success(names)
  }

  /** With the intended check, a run is configured exactly when no output
      is protected and the Green-Ampt options are all given or all empty,
      and in the first case `in_inf` is empty. */
  lemma ReadMapsNamesCorrectedAccepts(opts: Options, order: seq<string>, exists_: ExistsCheck, overwrite: bool)
    requires Enumerates(opts, order)
    ensures ReadMapsNamesCorrected(opts, order, exists_, overwrite).Success? <==>
      (forall k :: k in OutputKeys && Given(opts, k) ==> !exists_(opts[k]) || overwrite) &&
      ((!Given(opts, "in_eff_por") && !Given(opts, "in_cap_pressure") && !Given(opts, "in_hyd_conduct")) ||
       (Given(opts, "in_eff_por") && Given(opts, "in_cap_pressure") && Given(opts, "in_hyd_conduct") &&
        !Given(opts, "in_inf")))
  {
    ReadMapsNamesProtectsOutputs(opts, order, exists_, overwrite);
    var collected := CollectNames(Unnamed, opts, order, exists_, overwrite);
    if collected.Success? {
      CollectedFromUnnamed(opts, order, exists_, overwrite);
      var inputs := collected.value.inputs;
      GreenAmptIntendedAllOrNone(inputs);
      assert forall k :: k in InputKeys ==> (Supplied(inputs, k) <==> Given(opts, k));
      assert Supplied(inputs, "in_eff_por") == Given(opts, "in_eff_por");
      assert Supplied(inputs, "in_cap_pressure") == Given(opts, "in_cap_pressure");
      assert Supplied(inputs, "in_hyd_conduct") == Given(opts, "in_hyd_conduct");
      assert Supplied(inputs, "in_inf") == Given(opts, "in_inf");
    }
  }

  /** Where the two checks part: a lone porosity map with ordinary names is
      let through as written and refused as intended. */
  lemma PartialGreenAmptAccepted(opts: Options, order: seq<string>, exists_: ExistsCheck, overwrite: bool)
    requires Enumerates(opts, order)
    requires Get(opts, "in_z") == "dem" && Get(opts, "in_n") == "manning" && Get(opts, "in_eff_por") == "porosity"
    requires forall k :: k in InputKeys && k != "in_z" && k != "in_n" && k != "in_eff_por" ==> !Given(opts, k)
    requires forall k :: k in OutputKeys ==> !Given(opts, k)
    ensures ReadMapsNames(opts, order, exists_, overwrite).Success?
    ensures ReadMapsNamesCorrected(opts, order, exists_, overwrite) == Failure(GreenAmptIncomplete)
  {
    AsWrittenCheckIsInert(opts, order, exists_, overwrite);
    ReadMapsNamesCorrectedAccepts(opts, order, exists_, overwrite);
    CollectNamesBlocks(Unnamed, opts, order, exists_, overwrite);
    var collected := CollectNames(Unnamed, opts, order, exists_, overwrite);
    assert collected.Success?;
    CollectedFromUnnamed(opts, order, exists_, overwrite);
    var inputs := collected.value.inputs;
    assert Supplied(inputs, "in_eff_por");
    assert !Supplied(inputs, "in_cap_pressure");
  }

  /** The check as written looks for a map called `in_f` where the key is
      `in_inf`: all three Green-Ampt maps together with an infiltration-rate
      map are let through as written and refused as intended. */
  lemma RateWithGreenAmptAccepted(opts: Options, order: seq<string>, exists_: ExistsCheck, overwrite: bool)
    requires Enumerates(opts, order)
    requires Get(opts, "in_inf") == "rate" && Get(opts, "in_eff_por") == "porosity"
    requires Get(opts, "in_cap_pressure") == "pressure" && Get(opts, "in_hyd_conduct") == "conductivity"
    requires forall k :: k in InputKeys ==> Get(opts, k) != "in_hyd_conduct"
    requires forall k :: k in OutputKeys ==> !Given(opts, k)
    ensures ReadMapsNames(opts, order, exists_, overwrite).Success?
    ensures ReadMapsNamesCorrected(opts, order, exists_, overwrite) == Failure(IncompatibleInfiltration)
  {
    AsWrittenCheckIsInert(opts, order, exists_, overwrite);
    ReadMapsNamesCorrectedAccepts(opts, order, exists_, overwrite);
    CollectNamesBlocks(Unnamed, opts, order, exists_, overwrite);
    var collected := CollectNames(Unnamed, opts, order, exists_, overwrite);
    assert collected.Success?;
    CollectedFromUnnamed(opts, order, exists_, overwrite);
    var inputs := collected.value.inputs;
    assert Supplied(inputs, "in_eff_por") && Supplied(inputs, "in_inf");
  }
}
