/**
 * The bootstrap of the FIPS provider, providers/fips/fipsprov.c: the
 * external entry point (resolve the core's functions, create the library
 * context, run the known-answer self-test, publish the dispatch table), the
 * internal recursive entry point, the algorithm query and the parameter
 * introspection functions, with the module's static tables.
 */
module FipsProv {
  import opened Wrappers
  import opened OStr
  import opened Dispatch

  /**
   * An OPENSSL_CTX, the library context the module uses as its provider
   * context. Its contents belong to the host library; the model records only
   * how often it has been released.
   */
  class LibCtx {
    var frees: nat

    /** A context that OPENSSL_CTX_new handed out. */
    constructor ()
      ensures frees == 0
    {
      frees := 0;
    }

    /** OPENSSL_CTX_free, which is also the provider's teardown function. */
    method Free()
      modifies this
      ensures frees == old(frees) + 1
    {
      frees := frees + 1;
    }
  }

  /** The caller's variables that the entry points' `out` and `provctx` arguments point to. */
  class InitOutputs {
    var out: seq<DispatchEntry>
    var provctx: LibCtx?

    constructor (out: seq<DispatchEntry>, provctx: LibCtx?)
      ensures this.out == out && this.provctx == provctx
    {
      this.out := out;
      this.provctx := provctx;
    }
  }

  // ---------------------------------------------------------------------
  // Static tables

  /** `fips_dispatch_table`: what the provider offers the core. */
  const FipsDispatchTable: seq<DispatchEntry> := [
    DispatchEntry(Provider(ProviderFunction.Teardown), OpensslCtxFree),
    DispatchEntry(Provider(ProviderFunction.GetParamTypes), FipsGetParamTypes),
    DispatchEntry(Provider(ProviderFunction.GetParams), FipsGetParams),
    DispatchEntry(Provider(ProviderFunction.QueryOperation), FipsQuery),
    DispatchEntry(Terminator, Null)
  ]

  /** `intern_dispatch_table`: what the provider offers itself on a recursive load. */
  const InternDispatchTable: seq<DispatchEntry> := [
    DispatchEntry(Provider(ProviderFunction.QueryOperation), FipsQuery),
    DispatchEntry(Terminator, Null)
  ]

  /**
   * The external table offers exactly teardown, parameter types, parameters
   * and query, four entries before its terminator.
   */
  lemma FipsDispatchTableOffers()
    ensures Terminated(FipsDispatchTable) && TerminatorIndex(FipsDispatchTable) == 4
    ensures OfferedIds(FipsDispatchTable) ==
      {Provider(ProviderFunction.Teardown), Provider(ProviderFunction.GetParamTypes),
       Provider(ProviderFunction.GetParams), Provider(ProviderFunction.QueryOperation)}
  {
    var t := FipsDispatchTable;
    assert t[4].id == Terminator;
    assert TerminatorIndex(t) == 4;
    assert t[0].id in OfferedIds(t) && t[1].id in OfferedIds(t) && t[2].id in OfferedIds(t) && t[3].id in OfferedIds(t);
  }

  /** The internal table offers the query alone. */
  lemma InternDispatchTableOffers()
    ensures Terminated(InternDispatchTable) && TerminatorIndex(InternDispatchTable) == 1
    ensures OfferedIds(InternDispatchTable) == {Provider(ProviderFunction.QueryOperation)}
  {
    var u := InternDispatchTable;
    assert u[1].id == Terminator;
    assert TerminatorIndex(u) == 1;
    assert u[0].id in OfferedIds(u);
  }

  // ---------------------------------------------------------------------
  // Self-test

  /** The bytes of an ASCII string, without a terminating NUL. */
  function AsciiBytes(s: string): (r: seq<byte>)
    requires forall i :: 0 <= i < |s| ==> s[i] as int < 256
    ensures |r| == |s| && forall i :: 0 <= i < |s| ==> r[i] as int == s[i] as int
  {
    seq(|s|, i requires 0 <= i < |s| => s[i] as int as byte)
  }

  /** The self-test's input: the characters of "Hello World!", without its NUL. */
  const SelfTestMessage: seq<byte> := AsciiBytes("Hello World!")

  /** The SHA-256 digest of the self-test's input, as embedded in the module. */
  const ExpectedDigest: seq<byte> := [
    0x7f, 0x83, 0xb1, 0x65, 0x7f, 0xf1, 0xfc, 0x53, 0xb9, 0x2d, 0xc1, 0x81,
    0x48, 0xa1, 0xd6, 0x5d, 0xfc, 0x2d, 0x4b, 0x1f, 0xa3, 0xd6, 0x77, 0x28,
    0x4a, 0xdd, 0xd2, 0x00, 0x12, 0x6d, 0x90, 0x69
  ]

  /**
   * The self-test digests the 12 characters of its message, `sizeof(msg) - 1`,
   * and expects a SHA-256 digest, 32 bytes long.
   */
  lemma SelfTestVectors()
    ensures |SelfTestMessage| == 12 && SelfTestMessage[0] as int == 'H' as int && SelfTestMessage[11] as int == '!' as int
    ensures |ExpectedDigest| == 32
  {
  }

  /**
   * `evpDigest(m)` stands for the EVP pipeline the self-test runs on `m`
   * (fetch "SHA256", init, update, final): the digest it reports, or `None`
   * when any step fails.
   */
  predicate SelfTestPasses(evpDigest: seq<byte> -> Option<seq<byte>>)
  {
    evpDigest(SelfTestMessage) == Some(ExpectedDigest)
  }

  /**
   * dummy_evp_call: passes exactly when the pipeline produces a digest of
   * the expected length whose bytes equal the embedded ones.
   */
  method DummyEvpCall(evpDigest: seq<byte> -> Option<seq<byte>>) returns (ok: bool)
    ensures ok <==> SelfTestPasses(evpDigest)
  {
    var result := evpDigest(SelfTestMessage);
    if result.None? {
      return false;
    }
    var dgst := result.value;
    if |dgst| != |ExpectedDigest| {
      return false;
    }
    var cmp := Memcmp(dgst, ExpectedDigest, |ExpectedDigest|);
    assert dgst[..|ExpectedDigest|] == dgst && ExpectedDigest[..|ExpectedDigest|] == ExpectedDigest;
    ok := cmp == 0;
  }

  // ---------------------------------------------------------------------
  // The module's bindings and the external entry point

  /** The module-level statics that hold the functions the core supplied. */
  class FipsModule {
    /** `c_get_param_types` … `c_CRYPTO_secure_malloc_initialized`. */
    var bindings: Bindings
    /** `c_OPENSSL_cleanse`: declared but bound by no case of the resolver. */
    var cleanse: FunctionRef

    /** The statics as the loader leaves them: all NULL. */
    constructor ()
      ensures bindings == map[] && cleanse == Null
    {
      bindings := map[];
      cleanse := Null;
    }

    /**
     * OSSL_provider_init. The resolver binds the recognised functions of
     * `input` up to its terminator; then OPENSSL_CTX_new either fails
     * (`ctxAllocates` false: return 0) or yields a context, on which the
     * self-test runs: if it fails the context is freed once and 0 returned,
     * otherwise the dispatch table and the context are published and 1
     * returned. `ctx` names the context the call created.
     */
    method ProviderInit(input: seq<DispatchEntry>, ctxAllocates: bool,
                        evpDigest: seq<byte> -> Option<seq<byte>>, res: InitOutputs)
      returns (ret: int, ghost ctx: LibCtx?)
      requires Terminated(input)
      modifies this, res
      ensures bindings == BindAll(old(bindings), input[..TerminatorIndex(input)])
      ensures cleanse == old(cleanse)
      ensures ret == 0 || ret == 1
      ensures ret == 1 <==> ctxAllocates && SelfTestPasses(evpDigest)
      ensures !ctxAllocates ==> ctx == null
      ensures ctxAllocates ==> ctx != null && fresh(ctx)
      ensures ctxAllocates && !SelfTestPasses(evpDigest) ==> ctx.frees == 1
      ensures ret == 0 ==> res.out == old(res.out) && res.provctx == old(res.provctx)
      ensures ret == 1 ==> ctx.frees == 0 && res.out == FipsDispatchTable && res.provctx == ctx
    {
      var i := 0;
      while input[i].id != Terminator
        invariant 0 <= i <= TerminatorIndex(input)
        invariant bindings == BindAll(old(bindings), input[..i])
        invariant cleanse == old(cleanse)
        invariant res.out == old(res.out) && res.provctx == old(res.provctx)
        decreases TerminatorIndex(input) - i
      {
        match input[i].id {
          case Core(c) =>
            bindings := bindings[c := input[i].fn];
          case _ =>
        }
        assert input[..i + 1] == input[..i] + [input[i]];
        BindAllSnoc(old(bindings), input[..i], input[i]);
        i := i + 1;
      }

      if !ctxAllocates {
        return 0, null;
      }
      var c := new LibCtx();
      ctx := c;

      var passed := DummyEvpCall(evpDigest);
      if !passed {
        c.Free();
        return 0, c;
      }

      res.out := FipsDispatchTable;
      res.provctx := c;
      ret := 1;
    }
  }

  /**
   * fips_intern_provider_init: on a recursive load the provider context is
   * already in place, so only `*out` is written, with the query-only table.
   */
  method InternProviderInit(input: seq<DispatchEntry>, res: InitOutputs) returns (ret: int)
    modifies res`out
    ensures ret == 1
    ensures res.out == InternDispatchTable && res.provctx == old(res.provctx)
  {
    res.out := InternDispatchTable;
    ret := 1;
  }

  // ---------------------------------------------------------------------
  // Algorithm query

  /**
   * An `operation_id`: the digest operation or any other. `OtherOperation(code)`
   * stands only for a number other than `OSSL_OP_DIGEST`'s.
   */
  datatype OperationId = OpDigest | OtherOperation(code: int)

  /** The external table of functions that implements an algorithm. */
  datatype ImplementationTable = Sha256Functions

  /** An OSSL_ALGORITHM entry, or the `{ NULL, NULL, NULL }` sentinel. */
  datatype Algorithm =
    | Algorithm(name: string, propertyDefinition: string, implementation: ImplementationTable)
    | EndOfAlgorithms

  /** `fips_digests`. */
  const FipsDigests: seq<Algorithm> := [
    Algorithm("SHA256", "fips=yes", Sha256Functions),
    EndOfAlgorithms
  ]

  /** The variable the query's `no_cache` argument points to. */
  class Flag {
    var value: int

    constructor (value: int)
      ensures this.value == value
    {
      this.value := value;
    }
  }

  /** `fips_digests` lists one algorithm, SHA-256 with the property "fips=yes", then its sentinel. */
  lemma DigestTableListsSha256()
    ensures |FipsDigests| == 2 && FipsDigests[1] == EndOfAlgorithms
    ensures FipsDigests[0].Algorithm? && FipsDigests[0].name == "SHA256" &&
      FipsDigests[0].propertyDefinition == "fips=yes" && FipsDigests[0].implementation == Sha256Functions
  {
  }

  /**
   * fips_query: always marks the answer cacheable; the digest table for the
   * digest operation, NULL for every other.
   */
  method Query(operationId: OperationId, noCache: Flag) returns (algs: Option<seq<Algorithm>>)
    modifies noCache
    ensures noCache.value == 0
    ensures operationId == OpDigest ==> algs == Some(FipsDigests)
    ensures operationId != OpDigest ==> algs == None
  {
    noCache.value := 0;
    match operationId {
      case OpDigest => algs := Some(FipsDigests);
      case _ => algs := None;
    }
  }

  // ---------------------------------------------------------------------
  // Parameter introspection

  /** The OSSL_PARAM data types. */
  datatype ParamType = Integer | UnsignedInteger | Real | Utf8String | OctetString | Utf8Ptr | OctetPtr

  /** An OSSL_ITEM of the parameter-type list, or its `{ 0, NULL }` sentinel. */
  datatype ParamItem = ParamItem(dataType: ParamType, key: string) | EndOfItems

  /** OSSL_PROV_PARAM_NAME, OSSL_PROV_PARAM_VERSION, OSSL_PROV_PARAM_BUILDINFO. */
  const NameKey: string := "name"
  const VersionKey: string := "version"
  const BuildInfoKey: string := "buildinfo"

  /** The keys the provider answers, in the order it answers them. */
  const ProviderKeys: seq<string> := [NameKey, VersionKey, BuildInfoKey]

  const ProviderName: string := "OpenSSL FIPS Provider"

  /** `fips_param_types`. */
  const FipsParamTypes: seq<ParamItem> := [
    ParamItem(Utf8Ptr, NameKey),
    ParamItem(Utf8Ptr, VersionKey),
    ParamItem(Utf8Ptr, BuildInfoKey),
    EndOfItems
  ]

  /**
   * fips_get_param_types: the list advertises, as UTF-8 pointers, exactly the
   * keys that GetParams answers, in its order, and then the sentinel.
   */
  function GetParamTypes(): (r: seq<ParamItem>)
    ensures |r| == |ProviderKeys| + 1 && r[|ProviderKeys|] == EndOfItems
    ensures forall i :: 0 <= i < |ProviderKeys| ==>
      r[i].ParamItem? && r[i].dataType == Utf8Ptr && r[i].key == ProviderKeys[i]
  {
    FipsParamTypes
  }

  /**
   * `fips_param_types` advertises, in order, the keys that fips_get_params
   * answers, each as a UTF-8 pointer, then its sentinel.
   */
  lemma ParamTypesAdvertiseAnswers(version: string, buildInfo: string)
    ensures |FipsParamTypes| == |ProviderAnswers(version, buildInfo)| + 1
    ensures FipsParamTypes[|FipsParamTypes| - 1] == EndOfItems
    ensures forall i :: 0 <= i < |ProviderAnswers(version, buildInfo)| ==>
      FipsParamTypes[i] == ParamItem(Utf8Ptr, ProviderAnswers(version, buildInfo)[i].0)
  {
  }

  /** A caller-supplied OSSL_PARAM slot: its key, its type and the string it points at. */
  datatype Param = Param(key: string, dataType: ParamType, value: Option<string>)

  /** OSSL_PARAM_locate: the first slot at or after `from` with the key. */
  function LocateFrom(ps: seq<Param>, key: string, from: nat): (r: Option<nat>)
    requires from <= |ps|
    ensures r.Some? ==>
      from <= r.value < |ps| && ps[r.value].key == key &&
      forall j :: from <= j < r.value ==> ps[j].key != key
    ensures r.None? ==> forall j :: from <= j < |ps| ==> ps[j].key != key
    decreases |ps| - from
  {
    if from == |ps| then None
    else if ps[from].key == key then Some(from)
    else LocateFrom(ps, key, from + 1)
  }

  /** OSSL_PARAM_locate over the whole list. */
  function Locate(ps: seq<Param>, key: string): (r: Option<nat>)
    ensures r.Some? ==>
      r.value < |ps| && ps[r.value].key == key &&
      forall j :: 0 <= j < r.value ==> ps[j].key != key
    ensures r.None? ==> forall j :: 0 <= j < |ps| ==> ps[j].key != key
  {
    LocateFrom(ps, key, 0)
  }

  /** OSSL_PARAM_set_utf8_ptr: fails, writing nothing, unless the slot is a UTF-8 pointer. */
  function SetUtf8Ptr(p: Param, v: string): (r: Option<Param>)
    ensures r.Some? <==> p.dataType == Utf8Ptr
    ensures r.Some? ==> r.value.key == p.key && r.value.dataType == p.dataType && r.value.value == Some(v)
  {
    if p.dataType == Utf8Ptr then Some(p.(value := Some(v))) else None
  }

  /** The outcome of fips_get_params: its return value and the slots afterwards. */
  datatype Filled = Filled(ok: bool, slots: seq<Param>)

  /**
   * Answering `kvs` (key, value) in order: an absent key is skipped, a
   * present one is set, and the first set that fails ends the call with
   * failure, keeping what was set before it.
   */
  function FillKeys(ps: seq<Param>, kvs: seq<(string, string)>): (r: Filled)
    ensures SameShape(ps, r.slots)
    decreases |kvs|
  {
    if kvs == [] then Filled(true, ps)
    else
      match Locate(ps, kvs[0].0)
      case None => FillKeys(ps, kvs[1..])
      case Some(i) =>
        match SetUtf8Ptr(ps[i], kvs[0].1)
        case None => Filled(false, ps)
        case Some(p) => FillKeys(ps[i := p], kvs[1..])
  }

  /** What fips_get_params answers: the name, the version and the build information. */
  function ProviderAnswers(version: string, buildInfo: string): seq<(string, string)>
  {
    [(NameKey, ProviderName), (VersionKey, version), (BuildInfoKey, buildInfo)]
  }

  /**
   * fips_get_params over the caller's slots; `version` and `buildInfo` are
   * OPENSSL_VERSION_STR and OPENSSL_FULL_VERSION_STR of the build.
   */
  method GetParams(params: array<Param>, version: string, buildInfo: string) returns (ret: int)
    modifies params
    ensures ret == 0 || ret == 1
    ensures Filled(ret == 1, params[..]) == FillKeys(old(params[..]), ProviderAnswers(version, buildInfo))
  {
    ghost var kvs := ProviderAnswers(version, buildInfo);
    ghost var outcome := FillKeys(params[..], kvs);

    var p := Locate(params[..], NameKey);
    if p.Some? {
      var written := SetUtf8Ptr(params[p.value], ProviderName);
      if written.None? {
        return 0;
      }
      params[p.value] := written.value;
    }
    assert outcome == FillKeys(params[..], kvs[1..]);
    p := Locate(params[..], VersionKey);
    if p.Some? {
      var written := SetUtf8Ptr(params[p.value], version);
      if written.None? {
        return 0;
      }
      params[p.value] := written.value;
    }
    assert outcome == FillKeys(params[..], kvs[2..]) by {
      assert kvs[1..][1..] == kvs[2..];
    }
    p := Locate(params[..], BuildInfoKey);
    if p.Some? {
      var written := SetUtf8Ptr(params[p.value], buildInfo);
      if written.None? {
        return 0;
      }
      params[p.value] := written.value;
    }
    assert outcome == FillKeys(params[..], []) by {
      assert kvs[2..][1..] == [];
    }
    return 1;
  }

  /** Two slot lists with the same keys and types, slot by slot. */
  predicate SameShape(ps: seq<Param>, qs: seq<Param>)
  {
    |ps| == |qs| &&
    forall i :: 0 <= i < |ps| ==> ps[i].key == qs[i].key && ps[i].dataType == qs[i].dataType
  }

  /** The caller supplied a slot for `key`, and the first such slot cannot take a string pointer. */
  predicate Refuses(ps: seq<Param>, key: string)
  {
    match Locate(ps, key)
    case None => false
    case Some(i) => ps[i].dataType != Utf8Ptr
  }

  /** No key is answered twice. */
  predicate DistinctKeys(kvs: seq<(string, string)>)
  {
    forall m, n :: 0 <= m < n < |kvs| ==> kvs[m].0 != kvs[n].0
  }

  lemma LocateSameShape(ps: seq<Param>, qs: seq<Param>, key: string)
    requires SameShape(ps, qs)
    ensures Locate(ps, key) == Locate(qs, key)
  {
  }

  /**
   * Answering leaves every slot whose key is not answered as it was.
   */
  lemma {:induction false} FillKeysShape(ps: seq<Param>, kvs: seq<(string, string)>)
    ensures forall i :: 0 <= i < |ps| && (forall n :: 0 <= n < |kvs| ==> kvs[n].0 != ps[i].key) ==>
      FillKeys(ps, kvs).slots[i] == ps[i]
    decreases |kvs|
  {
    if kvs != [] {
      match Locate(ps, kvs[0].0)
      case None =>
        FillKeysShape(ps, kvs[1..]);
        forall i | 0 <= i < |ps| && (forall n :: 0 <= n < |kvs| ==> kvs[n].0 != ps[i].key)
          ensures forall n :: 0 <= n < |kvs[1..]| ==> kvs[1..][n].0 != ps[i].key
        {
          forall n | 0 <= n < |kvs[1..]| ensures kvs[1..][n].0 != ps[i].key {
            assert kvs[1..][n] == kvs[n + 1];
          }
        }
      case Some(j) =>
        match SetUtf8Ptr(ps[j], kvs[0].1)
        case None =>
        case Some(p) =>
          var qs := ps[j := p];
          FillKeysShape(qs, kvs[1..]);
          forall i | 0 <= i < |ps| && (forall n :: 0 <= n < |kvs| ==> kvs[n].0 != ps[i].key)
            ensures FillKeys(ps, kvs).slots[i] == ps[i]
          {
            assert kvs[0].0 != ps[i].key;
            assert qs[i] == ps[i];
            forall n | 0 <= n < |kvs[1..]| ensures kvs[1..][n].0 != qs[i].key {
              assert kvs[1..][n] == kvs[n + 1];
            }
          }
    }
  }

  /** Refusal depends only on keys and types. */
  lemma RefusesSameShape(ps: seq<Param>, qs: seq<Param>, key: string)
    requires SameShape(ps, qs)
    ensures Refuses(ps, key) == Refuses(qs, key)
  {
    LocateSameShape(ps, qs, key);
  }

  /** The call succeeds exactly when no answered key is refused by its slot. */
  lemma {:induction false} FillKeysSucceeds(ps: seq<Param>, kvs: seq<(string, string)>)
    ensures FillKeys(ps, kvs).ok <==> forall n :: 0 <= n < |kvs| ==> !Refuses(ps, kvs[n].0)
    decreases |kvs|
  {
    if kvs != [] {
      var next := ps;
      match Locate(ps, kvs[0].0) {
        case None =>
        case Some(j) =>
          match SetUtf8Ptr(ps[j], kvs[0].1) {
            case None =>
            case Some(p) => next := ps[j := p];
          }
      }
      assert SameShape(ps, next);
      FillKeysSucceeds(next, kvs[1..]);
      forall n | 0 <= n < |kvs[1..]| ensures Refuses(next, kvs[1..][n].0) == Refuses(ps, kvs[n + 1].0) {
        assert kvs[1..][n] == kvs[n + 1];
        RefusesSameShape(ps, next, kvs[n + 1].0);
      }
      if FillKeys(ps, kvs).ok {
        forall n | 0 <= n < |kvs| ensures !Refuses(ps, kvs[n].0) {
          if n > 0 { assert !Refuses(next, kvs[1..][n - 1].0); }
        }
      }
    }
  }

  /**
   * On failure, the call stops at the first refused key: the slots are
   * exactly those left by answering the keys before it, and no later key is
   * answered.
   */
  lemma {:induction false} FillKeysStopsAtRefusal(ps: seq<Param>, kvs: seq<(string, string)>, n: nat)
    requires n < |kvs| && Refuses(ps, kvs[n].0)
    requires forall m :: 0 <= m < n ==> !Refuses(ps, kvs[m].0)
    ensures FillKeys(ps, kvs) == Filled(false, FillKeys(ps, kvs[..n]).slots)
    decreases n
  {
    if n == 0 {
      assert kvs[..0] == [];
    } else {
      assert !Refuses(ps, kvs[0].0);
      var next := ps;
      match Locate(ps, kvs[0].0) {
        case None =>
        case Some(j) =>
          var p := SetUtf8Ptr(ps[j], kvs[0].1).value;
          next := ps[j := p];
      }
      assert FillKeys(ps, kvs) == FillKeys(next, kvs[1..]);
      assert kvs[..n][0] == kvs[0] && kvs[..n][1..] == kvs[1..][..n - 1];
      assert FillKeys(ps, kvs[..n]) == FillKeys(next, kvs[1..][..n - 1]);
      assert SameShape(ps, next);
      RefusesSameShape(ps, next, kvs[n].0);
      forall m | 0 <= m < n - 1 ensures !Refuses(next, kvs[1..][m].0) {
        assert kvs[1..][m] == kvs[m + 1];
        RefusesSameShape(ps, next, kvs[m + 1].0);
      }
      assert kvs[1..][n - 1] == kvs[n];
      FillKeysStopsAtRefusal(next, kvs[1..], n - 1);
    }
  }

  /**
   * On success with distinct keys, the first slot of every answered key that
   * the caller supplied holds that key's value.
   */
  lemma {:induction false} FillKeysAnswers(ps: seq<Param>, kvs: seq<(string, string)>, n: nat)
    requires DistinctKeys(kvs) && FillKeys(ps, kvs).ok
    requires n < |kvs| && Locate(ps, kvs[n].0).Some?
    ensures FillKeys(ps, kvs).slots[Locate(ps, kvs[n].0).value].value == Some(kvs[n].1)
    decreases |kvs|
  {
    FillKeysShape(ps, kvs);
    var j := Locate(ps, kvs[0].0);
    if j.None? {
      assert n != 0;
      assert kvs[1..][n - 1] == kvs[n];
      FillKeysAnswers(ps, kvs[1..], n - 1);
    } else {
      var p := SetUtf8Ptr(ps[j.value], kvs[0].1).value;
      var next := ps[j.value := p];
      assert FillKeys(ps, kvs) == FillKeys(next, kvs[1..]);
      FillKeysShape(next, kvs[1..]);
      if n == 0 {
        forall m | 0 <= m < |kvs[1..]| ensures kvs[1..][m].0 != next[j.value].key {
          assert kvs[1..][m] == kvs[m + 1];
        }
      } else {
        assert SameShape(ps, next);
        LocateSameShape(ps, next, kvs[n].0);
        assert kvs[1..][n - 1] == kvs[n];
        FillKeysAnswers(next, kvs[1..], n - 1);
      }
    }
  }

  /**
   * fips_get_params succeeds exactly when none of the name, version and
   * build-information slots the caller supplied refuses a string pointer.
   */
  lemma GetParamsSucceeds(ps: seq<Param>, version: string, buildInfo: string)
    ensures FillKeys(ps, ProviderAnswers(version, buildInfo)).ok <==>
      !Refuses(ps, NameKey) && !Refuses(ps, VersionKey) && !Refuses(ps, BuildInfoKey)
  {
    var kvs := ProviderAnswers(version, buildInfo);
    FillKeysSucceeds(ps, kvs);
    assert kvs[0].0 == NameKey && kvs[1].0 == VersionKey && kvs[2].0 == BuildInfoKey;
  }

  /**
   * On success each slot the caller supplied for the name, version and build
   * information holds its answer; slots with other keys are never touched.
   */
  lemma GetParamsAnswers(ps: seq<Param>, version: string, buildInfo: string)
    ensures forall i :: 0 <= i < |ps| && ps[i].key !in ProviderKeys ==>
      FillKeys(ps, ProviderAnswers(version, buildInfo)).slots[i] == ps[i]
    ensures FillKeys(ps, ProviderAnswers(version, buildInfo)).ok ==>
      (Locate(ps, NameKey).Some? ==>
        FillKeys(ps, ProviderAnswers(version, buildInfo)).slots[Locate(ps, NameKey).value].value == Some(ProviderName)) &&
      (Locate(ps, VersionKey).Some? ==>
        FillKeys(ps, ProviderAnswers(version, buildInfo)).slots[Locate(ps, VersionKey).value].value == Some(version)) &&
      (Locate(ps, BuildInfoKey).Some? ==>
        FillKeys(ps, ProviderAnswers(version, buildInfo)).slots[Locate(ps, BuildInfoKey).value].value == Some(buildInfo))
  {
    var kvs := ProviderAnswers(version, buildInfo);
    assert kvs[0].0 == NameKey && kvs[1].0 == VersionKey && kvs[2].0 == BuildInfoKey;
    FillKeysShape(ps, kvs);
    if FillKeys(ps, kvs).ok {
      assert |NameKey| == 4 && |VersionKey| == 7 && |BuildInfoKey| == 9;
      assert DistinctKeys(kvs);
      if Locate(ps, NameKey).Some? { FillKeysAnswers(ps, kvs, 0); }
      if Locate(ps, VersionKey).Some? { FillKeysAnswers(ps, kvs, 1); }
      if Locate(ps, BuildInfoKey).Some? { FillKeysAnswers(ps, kvs, 2); }
    }
  }

  /**
   * A caller that types its slots as GetParamTypes advertises (a UTF-8
   * pointer for each of ProviderKeys) never sees the call fail.
   */
  lemma {:induction false} AdvertisedTypesAccepted(ps: seq<Param>, version: string, buildInfo: string)
    requires forall i :: 0 <= i < |ps| && ps[i].key in ProviderKeys ==> ps[i].dataType == Utf8Ptr
    ensures FillKeys(ps, ProviderAnswers(version, buildInfo)).ok
  {
    forall k | k in ProviderKeys ensures !Refuses(ps, k) {
      var l := Locate(ps, k);
      if l.Some? {
        assert ps[l.value].key in ProviderKeys;
      }
    }
    GetParamsSucceeds(ps, version, buildInfo);
  }
}
