/**
 * Function tables (OSSL_DISPATCH arrays) and the capability resolver of
 * providers/fips/fipsprov.c.
 *
 * A table is a sequence of (function id, function) entries ended by an entry
 * whose id is 0. Ids are kept symbolic: the numbers behind them live in
 * core_numbers.h, which is not part of this model.
 */
module Dispatch {
  import opened Wrappers

  /** The core functions whose ids the FIPS provider's resolver recognises. */
  datatype CoreFunction =
    | CoreGetParamTypes | CoreGetParams | CorePutError | CoreAddErrorVdata
    | CryptoMalloc | CryptoZalloc | CryptoMemdup | CryptoStrdup | CryptoStrndup
    | CryptoFree | CryptoClearFree | CryptoRealloc | CryptoClearRealloc
    | CryptoSecureMalloc | CryptoSecureZalloc | CryptoSecureFree
    | CryptoSecureClearFree | CryptoSecureMallocInitialized

  /** The functions a provider hands back to the core. */
  datatype ProviderFunction = Teardown | GetParamTypes | GetParams | QueryOperation

  /**
   * A `function_id`: 0, a recognised core id, a provider id, or any other
   * number. `Unrecognised(code)` stands only for a non-zero number that no
   * `case` of the resolver names; 0 is always `Terminator`.
   */
  datatype FunctionId =
    | Terminator
    | Core(core: CoreFunction)
    | Provider(provider: ProviderFunction)
    | Unrecognised(code: int)

  /** An opaque function pointer: NULL, one of the host's, or one defined by the FIPS module. */
  datatype FunctionRef =
    | Null
    | HostFunction(address: nat)
    | OpensslCtxFree
    | FipsGetParamTypes
    | FipsGetParams
    | FipsQuery

  datatype DispatchEntry = DispatchEntry(id: FunctionId, fn: FunctionRef)

  /** The table holds a terminating entry. */
  predicate Terminated(t: seq<DispatchEntry>)
  {
    exists i :: 0 <= i < |t| && t[i].id == Terminator
  }

  /** The index of the first terminating entry at or after `from`. */
  function TerminatorFrom(t: seq<DispatchEntry>, from: nat): (k: nat)
    requires from <= |t| && exists i :: from <= i < |t| && t[i].id == Terminator
    ensures from <= k < |t| && t[k].id == Terminator
    ensures forall i :: from <= i < k ==> t[i].id != Terminator
    decreases |t| - from
  {
    if t[from].id == Terminator then from else TerminatorFrom(t, from + 1)
  }

  /** The number of entries before the terminator: the part of the table a scan reads. */
  function TerminatorIndex(t: seq<DispatchEntry>): (k: nat)
    requires Terminated(t)
    ensures k < |t| && t[k].id == Terminator
    ensures forall i :: 0 <= i < k ==> t[i].id != Terminator
  {
    TerminatorFrom(t, 0)
  }

  /** The ids a table offers: those of the entries before its terminator. */
  function OfferedIds(t: seq<DispatchEntry>): set<FunctionId>
    requires Terminated(t)
  {
    set i | 0 <= i < TerminatorIndex(t) :: t[i].id
  }

  /** The module's bindings of core functions: an absent key is a NULL binding. */
  type Bindings = map<CoreFunction, FunctionRef>

  /** One step of the resolver's switch: a recognised id stores its function, any other id is ignored. */
  function BindEntry(b: Bindings, e: DispatchEntry): (r: Bindings)
    ensures forall c :: Lookup(r, c) == if e.id == Core(c) then Some(e.fn) else Lookup(b, c)
  {
    match e.id
    case Core(c) => b[c := e.fn]
    case _ => b
  }

  /** The resolver over a run of entries, in order: a binding, once made, is never removed. */
  function BindAll(b: Bindings, es: seq<DispatchEntry>): (r: Bindings)
    ensures b.Keys <= r.Keys
    decreases |es|
  {
    if es == [] then b else BindAll(BindEntry(b, es[0]), es[1..])
  }

  /** The function of the last entry in `es` with id `Core(c)`, if any. */
  function LastFor(es: seq<DispatchEntry>, c: CoreFunction): Option<FunctionRef>
    decreases |es|
  {
    if es == [] then None
    else if es[|es| - 1].id == Core(c) then Some(es[|es| - 1].fn)
    else LastFor(es[..|es| - 1], c)
  }

  /**
   * A binding read as a nullable pointer. `None` means the resolver never
   * bound `c`; `Some(Null)` means an entry for `c` carried a NULL pointer.
   * C reads both as NULL.
   */
  function Lookup(b: Bindings, c: CoreFunction): Option<FunctionRef>
  {
    if c in b then Some(b[c]) else None
  }

  /** The entries of `es` whose ids the resolver recognises, in order. */
  function Recognised(es: seq<DispatchEntry>): (r: seq<DispatchEntry>)
    ensures forall i :: 0 <= i < |r| ==> r[i].id.Core?
    decreases |es|
  {
    if es == [] then []
    else if es[0].id.Core? then [es[0]] + Recognised(es[1..])
    else Recognised(es[1..])
  }

  /** Resolving one more entry is one more step of the switch. */
  lemma {:induction false} BindAllSnoc(b: Bindings, es: seq<DispatchEntry>, e: DispatchEntry)
    ensures BindAll(b, es + [e]) == BindEntry(BindAll(b, es), e)
    decreases |es|
  {
    if es == [] {
      assert [e][1..] == [];
    } else {
      assert (es + [e])[1..] == es[1..] + [e];
      BindAllSnoc(BindEntry(b, es[0]), es[1..], e);
    }
  }

  /**
   * Each recognised id overwrites its binding, so the last entry for a core
   * function wins; a function no entry names keeps its old binding.
   */
  lemma {:induction false} BindAllLastWins(b: Bindings, es: seq<DispatchEntry>, c: CoreFunction)
    ensures Lookup(BindAll(b, es), c) ==
      match LastFor(es, c)
      case Some(f) => Some(f)
      case None => Lookup(b, c)
    decreases |es|
  {
    if es != [] {
      var front, e := es[..|es| - 1], es[|es| - 1];
      assert es == front + [e];
      BindAllSnoc(b, front, e);
      BindAllLastWins(b, front, c);
    }
  }

  /**
   * The resolver binds nothing but recognised core functions. A function
   * counts as bound here even when its entry carried a NULL pointer.
   */
  lemma {:induction false} BindAllKeys(b: Bindings, es: seq<DispatchEntry>)
    ensures BindAll(b, es).Keys == b.Keys + set i | 0 <= i < |es| && es[i].id.Core? :: es[i].id.core
    decreases |es|
  {
    if es != [] {
      BindAllKeys(BindEntry(b, es[0]), es[1..]);
      var rest := set i | 0 <= i < |es[1..]| && es[1..][i].id.Core? :: es[1..][i].id.core;
      var all := set i | 0 <= i < |es| && es[i].id.Core? :: es[i].id.core;
      assert all == (if es[0].id.Core? then {es[0].id.core} else {}) + rest by {
        forall c | c in all ensures c in (if es[0].id.Core? then {es[0].id.core} else {}) + rest {
          var i :| 0 <= i < |es| && es[i].id.Core? && es[i].id.core == c;
          if i > 0 { assert es[1..][i - 1] == es[i]; }
        }
        forall c | c in rest ensures c in all {
          var i :| 0 <= i < |es[1..]| && es[1..][i].id.Core? && es[1..][i].id.core == c;
          assert es[i + 1] == es[1..][i];
        }
      }
    }
  }

  /** Entries with ids the resolver does not recognise make no difference to the bindings. */
  lemma {:induction false} BindAllOnlyRecognised(b: Bindings, es: seq<DispatchEntry>)
    ensures BindAll(b, es) == BindAll(b, Recognised(es))
    decreases |es|
  {
    if es != [] {
      BindAllOnlyRecognised(BindEntry(b, es[0]), es[1..]);
      if es[0].id.Core? {
        var r := [es[0]] + Recognised(es[1..]);
        assert r[0] == es[0] && r[1..] == Recognised(es[1..]);
      } else {
        BindAllOnlyRecognised(b, es[1..]);
      }
    }
  }

  /**
   * Inserting or removing one entry whose id is not recognised leaves the
   * bindings unchanged.
   */
  lemma BindAllIgnoresUnrecognised(b: Bindings, p: seq<DispatchEntry>, e: DispatchEntry, q: seq<DispatchEntry>)
    requires !e.id.Core?
    ensures BindAll(b, p + [e] + q) == BindAll(b, p + q)
  {
    RecognisedAppend(p, [e]);
    RecognisedAppend(p + [e], q);
    RecognisedAppend(p, q);
    assert Recognised([e]) == [] by { assert [e][1..] == []; }
    assert Recognised(p + [e]) == Recognised(p);
    BindAllOnlyRecognised(b, p + [e] + q);
    BindAllOnlyRecognised(b, p + q);
  }

  lemma {:induction false} RecognisedAppend(p: seq<DispatchEntry>, q: seq<DispatchEntry>)
    ensures Recognised(p + q) == Recognised(p) + Recognised(q)
    decreases |p|
  {
    if p == [] {
      assert p + q == q;
    } else {
      assert (p + q)[0] == p[0] && (p + q)[1..] == p[1..] + q;
      RecognisedAppend(p[1..], q);
    }
  }

  /**
   * The scan stops at the first terminator: two tables that agree up to and
   * including it resolve to the same bindings, whatever follows.
   */
  lemma ScanStopsAtTerminator(b: Bindings, t1: seq<DispatchEntry>, t2: seq<DispatchEntry>)
    requires Terminated(t1)
    requires TerminatorIndex(t1) < |t2| && t1[..TerminatorIndex(t1) + 1] == t2[..TerminatorIndex(t1) + 1]
    ensures Terminated(t2) && TerminatorIndex(t2) == TerminatorIndex(t1)
    ensures BindAll(b, t2[..TerminatorIndex(t2)]) == BindAll(b, t1[..TerminatorIndex(t1)])
  {
    var k := TerminatorIndex(t1);
    assert t2[k] == t1[..k + 1][k];
    forall i | 0 <= i < k ensures t2[i].id != Terminator {
      assert t2[i] == t2[..k + 1][i];
    }
    assert t2[..k] == t1[..k] by {
      assert t2[..k] == t2[..k + 1][..k];
    }
  }
}
