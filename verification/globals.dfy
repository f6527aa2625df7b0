/**
 * `SetGlobalVariables`: one global per symbol descriptor, bound in
 * `namedValues` to the module's global of that name.
 */
module Globals {
  import opened Wrappers
  import opened Ast
  import opened IR
  import opened Builder

  function Abs(x: int): (r: nat)
    ensures r == x || r == -x
  {
    if x < 0 then -x else x
  }

  /**
   * The global created for one descriptor: a VAR or CONST becomes an i32
   * initialised to the descriptor's value, constant exactly for CONST; an
   * ARRAY becomes a zero-initialised, non-constant i32 array of length
   * `|start - end|`.
   */
  function GlobalOf(d: Descriptor): (g: Global)
    ensures g.name == d.ident
    ensures g.isConstant <==> d.kind == CONST
    ensures g.ty.I32? <==> d.kind != ARRAY
    ensures g.init == (if d.kind == ARRAY then ZeroInit else IntInit(d.value))
  {
    match d.kind
    case VAR => Global(d.ident, false, I32, IntInit(d.value))
    case CONST => Global(d.ident, true, I32, IntInit(d.value))
    case ARRAY => Global(d.ident, false, ArrayOfI32(Abs(d.start - d.end)), ZeroInit)
  }

  /** An array's length is the distance between its bounds, whichever bound is the larger. */
  lemma ArrayLengthIgnoresOrder(d: Descriptor)
    requires d.kind == ARRAY
    ensures GlobalOf(d).ty == ArrayOfI32(if d.start <= d.end then d.end - d.start else d.start - d.end)
    ensures GlobalOf(d).ty == GlobalOf(d.(start := d.end, end := d.start)).ty
  {
  }

  /** The identifiers the descriptors declare. */
  function Idents(ds: seq<Descriptor>): set<string> {
    set i | 0 <= i < |ds| :: ds[i].ident
  }

  /** The globals created for `ds`, in order. */
  function GlobalsOf(ds: seq<Descriptor>): (gs: seq<Global>)
    ensures |gs| == |ds|
    ensures forall i :: 0 <= i < |ds| ==> gs[i] == GlobalOf(ds[i])
  {
    seq(|ds|, i requires 0 <= i < |ds| => GlobalOf(ds[i]))
  }

  /**
   * The loop of `SetGlobalVariables` over the remaining descriptors: the
   * global is added to the module, then the identifier is bound to the
   * module's global of that name.
   */
  function AddGlobals(unit: ModuleState, nv: map<string, Value>, ds: seq<Descriptor>): (r: (ModuleState, map<string, Value>))
    ensures nv.Keys <= r.1.Keys
    decreases |ds|
  {
    if |ds| == 0 then (unit, nv)
    else
      var u := unit.(globals := unit.globals + [GlobalOf(ds[0])]);
      var k := FirstNamed(u.globals, ds[0].ident);
      assert u.globals[|u.globals| - 1].name == ds[0].ident;
      AddGlobals(u, nv[ds[0].ident := GlobalRef(k.value)], ds[1..])
  }

  /** The remaining descriptors' globals are appended, one each and in order; nothing else in the module changes. */
  lemma {:induction false} AddGlobalsModule(unit: ModuleState, nv: map<string, Value>, ds: seq<Descriptor>)
    ensures AddGlobals(unit, nv, ds).0 == unit.(globals := unit.globals + GlobalsOf(ds))
    decreases |ds|
  {
    if |ds| > 0 {
      var u1 := unit.(globals := unit.globals + [GlobalOf(ds[0])]);
      assert u1.globals[|u1.globals| - 1].name == ds[0].ident;
      var nv1 := nv[ds[0].ident := GlobalRef(FirstNamed(u1.globals, ds[0].ident).value)];
      AddGlobalsModule(u1, nv1, ds[1..]);
      assert GlobalsOf(ds) == [GlobalOf(ds[0])] + GlobalsOf(ds[1..]);
    }
  }

  lemma IdentsCons(ds: seq<Descriptor>)
    requires |ds| > 0
    ensures Idents(ds) == {ds[0].ident} + Idents(ds[1..])
  {
    forall x | x in Idents(ds) ensures x in {ds[0].ident} + Idents(ds[1..]) {
      var i :| 0 <= i < |ds| && ds[i].ident == x;
      if i > 0 { assert ds[1..][i - 1] == ds[i]; }
    }
    forall x | x in Idents(ds[1..]) ensures x in Idents(ds) {
      var i :| 0 <= i < |ds[1..]| && ds[1..][i].ident == x;
      assert ds[i + 1] == ds[1..][i];
    }
  }

  /** Exactly the declared identifiers gain a binding; every other binding is untouched. */
  lemma {:induction false} AddGlobalsKeys(unit: ModuleState, nv: map<string, Value>, ds: seq<Descriptor>)
    ensures AddGlobals(unit, nv, ds).1.Keys == nv.Keys + Idents(ds)
    ensures forall x :: x in nv && x !in Idents(ds) ==> AddGlobals(unit, nv, ds).1[x] == nv[x]
    decreases |ds|
  {
    if |ds| > 0 {
      var u1 := unit.(globals := unit.globals + [GlobalOf(ds[0])]);
      assert u1.globals[|u1.globals| - 1].name == ds[0].ident;
      var nv1 := nv[ds[0].ident := GlobalRef(FirstNamed(u1.globals, ds[0].ident).value)];
      AddGlobalsKeys(u1, nv1, ds[1..]);
      IdentsCons(ds);
    }
  }

  /** Every declared identifier ends up bound to the first global of its name. */
  lemma {:induction false} AddGlobalsBinds(unit: ModuleState, nv: map<string, Value>, ds: seq<Descriptor>, x: string)
    requires x in Idents(ds)
    ensures var (u, m) := AddGlobals(unit, nv, ds);
      FirstNamed(u.globals, x).Some? && x in m && m[x] == GlobalRef(FirstNamed(u.globals, x).value)
    decreases |ds|
  {
    var d := ds[0];
    var u1 := unit.(globals := unit.globals + [GlobalOf(d)]);
    assert u1.globals[|u1.globals| - 1].name == d.ident;
    var nv1 := nv[d.ident := GlobalRef(FirstNamed(u1.globals, d.ident).value)];
    assert AddGlobals(unit, nv, ds) == AddGlobals(u1, nv1, ds[1..]);
    IdentsCons(ds);
    if x in Idents(ds[1..]) {
      AddGlobalsBinds(u1, nv1, ds[1..], x);
    } else {
      AddGlobalsModule(u1, nv1, ds[1..]);
      AddGlobalsKeys(u1, nv1, ds[1..]);
      FirstNamedExtend(u1.globals, GlobalsOf(ds[1..]), x);
    }
  }

  /** Before position `n + i`, no global in `unit.globals + GlobalsOf(ds)` is named `ds[i].ident`. */
  lemma NoEarlierNamed(unit: ModuleState, ds: seq<Descriptor>, i: nat, gs: seq<Global>)
    requires forall a, b :: 0 <= a < b < |ds| ==> ds[a].ident != ds[b].ident
    requires forall j :: 0 <= j < |unit.globals| ==> unit.globals[j].name !in Idents(ds)
    requires i < |ds| && gs == unit.globals + GlobalsOf(ds)
    ensures forall j :: 0 <= j < |unit.globals| + i ==> gs[j].name != ds[i].ident
  {
    var n := |unit.globals|;
    assert ds[i].ident in Idents(ds);
    forall j | 0 <= j < n + i ensures gs[j].name != ds[i].ident {
      if j < n {
        assert gs[j] == unit.globals[j];
      } else {
        assert gs[j] == GlobalOf(ds[j - n]);
      }
    }
  }

  /**
   * With distinct identifiers none of which names an earlier global, the
   * i-th identifier is bound to the i-th new global.
   */
  lemma BindsFreshGlobals(unit: ModuleState, nv: map<string, Value>, ds: seq<Descriptor>, i: nat)
    requires forall a, b :: 0 <= a < b < |ds| ==> ds[a].ident != ds[b].ident
    requires forall j :: 0 <= j < |unit.globals| ==> unit.globals[j].name !in Idents(ds)
    requires i < |ds|
    ensures ds[i].ident in AddGlobals(unit, nv, ds).1
    ensures AddGlobals(unit, nv, ds).1[ds[i].ident] == GlobalRef(|unit.globals| + i)
  {
    var x := ds[i].ident;
    assert x in Idents(ds);
    AddGlobalsBinds(unit, nv, ds, x);
    AddGlobalsModule(unit, nv, ds);
    var gs := AddGlobals(unit, nv, ds).0.globals;
    assert gs[|unit.globals| + i] == GlobalOf(ds[i]);
    NoEarlierNamed(unit, ds, i, gs);
  }

  /** `SetGlobalVariables` on the builder state, over the descriptors of the symbol table. */
  function SetGlobalVariables(st: State): (s: State)
    ensures s == st.(unit := s.unit, namedValues := s.namedValues)
    ensures s.unit == st.unit.(globals := st.unit.globals + GlobalsOf(st.symbols))
    ensures s.namedValues.Keys == st.namedValues.Keys + Idents(st.symbols)
    ensures Valid(st) ==> Valid(s)
  {
    AddGlobalsModule(st.unit, st.namedValues, st.symbols);
    AddGlobalsKeys(st.unit, st.namedValues, st.symbols);
    var (u, m) := AddGlobals(st.unit, st.namedValues, st.symbols);
    st.(unit := u, namedValues := m)
  }
}
