/**
 The default values folded in after parsing: the chain of layers that may provide a value.
 */
module Defaults {
  import opened CppStrings
  import opened Options

  type Layer = map<string, string>

  /** `defaults` and options of an option group, as they are when the group is added. */
  datatype Group = Group(defaults: Layer, options: seq<Option>)

  function Lookup<V>(m: map<string, V>, d: string): Maybe<V> {
    if d in m then Some(m[d]) else None
  }

  /** The value of `d` in the first layer that has one. */
  function FirstIn(chain: seq<Layer>, d: string): Maybe<string> {
    if chain == [] then None
    else if d in chain[0] then Some(chain[0][d])
    else FirstIn(chain[1..], d)
  }

  function Overlay(chain: seq<Layer>): Layer {
    if chain == [] then map[] else Overlay(chain[1..]) + chain[0]
  }

  /** Each option with a non-empty default is a layer of its own, in list order. */
  function OptionLayers(options: seq<Option>): seq<Layer> {
    if options == [] then []
    else (if options[0].dflt != "" then [map[options[0].dest := options[0].dflt]] else []) + OptionLayers(options[1..])
  }

  function GroupLayers(groups: seq<Group>): seq<Layer> {
    if groups == [] then [] else [groups[0].defaults] + OptionLayers(groups[0].options) + GroupLayers(groups[1..])
  }

  /** Parser defaults, then own options, then group by group its defaults and its options. */
  function Chain(defaults: Layer, options: seq<Option>, groups: seq<Group>): seq<Layer> {
    [defaults] + OptionLayers(options) + GroupLayers(groups)
  }

  /** Overlaying a chain gives every destination its first match. */
  lemma {:induction false} OverlayIsFirstMatch(chain: seq<Layer>, d: string)
    ensures Lookup(Overlay(chain), d) == FirstIn(chain, d)
  {
    if chain != [] {
      OverlayIsFirstMatch(chain[1..], d);
    }
  }

  /** A layer at the end of the chain only fills what is still missing. */
  lemma {:induction false} OverlaySnoc(chain: seq<Layer>, layer: Layer)
    ensures Overlay(chain + [layer]) == layer + Overlay(chain)
  {
    if chain == [] {
      assert chain + [layer] == [layer];
      assert [layer][1..] == [];
    } else {
      assert (chain + [layer])[1..] == chain[1..] + [layer] && (chain + [layer])[0] == chain[0];
      OverlaySnoc(chain[1..], layer);
      assert (layer + Overlay(chain[1..])) + chain[0] == layer + (Overlay(chain[1..]) + chain[0]);
    }
  }

  lemma Assoc4<T>(a: seq<T>, b: seq<T>, c: seq<T>, d: seq<T>)
    ensures a + b + c + d == a + (b + c + d)
    ensures a + b + c == a + (b + c)
  {
  }

  lemma OverlayOne(layer: Layer)
    ensures Overlay([layer]) == layer
  {
    assert Overlay([layer]) == Overlay([]) + layer;
  }

  /** Filling in one default is putting a one-entry layer behind the table. */
  lemma FillIn(table: Layer, d: string, v: string)
    ensures map[d := v] + table == if d in table then table else table[d := v]
    ensures map[] + table == table
  {
  }

  lemma {:induction false} OptionLayersSnoc(options: seq<Option>, o: Option)
    ensures OptionLayers(options + [o]) ==
            OptionLayers(options) + (if o.dflt != "" then [map[o.dest := o.dflt]] else [])
  {
    if options == [] {
      assert options + [o] == [o];
    } else {
      assert (options + [o])[1..] == options[1..] + [o];
      OptionLayersSnoc(options[1..], o);
    }
  }

  lemma {:induction false} GroupLayersSnoc(groups: seq<Group>, g: Group)
    ensures GroupLayers(groups + [g]) == GroupLayers(groups) + ([g.defaults] + OptionLayers(g.options))
  {
    if groups == [] {
      assert groups + [g] == [g];
      assert GroupLayers([]) + ([g.defaults] + OptionLayers(g.options)) == [g.defaults] + OptionLayers(g.options) + GroupLayers([]);
    } else {
      assert (groups + [g])[1..] == groups[1..] + [g];
      GroupLayersSnoc(groups[1..], g);
      var first := [groups[0].defaults] + OptionLayers(groups[0].options);
      Assoc(first, GroupLayers(groups[1..]), [g.defaults] + OptionLayers(g.options));
    }
  }

  /** One more option behind a chain: its default, if it has one, fills what is still missing. */
  lemma OverlayNextOption(chain: seq<Layer>, options: seq<Option>, o: Option)
    ensures Overlay(chain + OptionLayers(options + [o])) ==
            (if o.dflt != "" then map[o.dest := o.dflt] else map[]) + Overlay(chain + OptionLayers(options))
  {
    OptionLayersSnoc(options, o);
    var before := chain + OptionLayers(options);
    if o.dflt != "" {
      OverlaySnoc(before, map[o.dest := o.dflt]);
      Assoc(chain, OptionLayers(options), [map[o.dest := o.dflt]]);
    } else {
      assert OptionLayers(options) + [] == OptionLayers(options);
    }
  }
}
