/** Pairing of signers and keys on the command line of the CMS tool
    (openssl-master/apps/cms.c:582-620, 641-672, 748-770, 1093-1127), for a signing operation. */
module Cms {
  import opened Wrappers
  import opened Sequences

  datatype Opt = Signer(file: string) | Inkey(file: string) | KeyOpt(value: string)

  /** One signature to be made: certificate file, key file, options of the key. */
  datatype Pair = Pair(signer: string, key: string, opts: seq<string>)

  /** An entry of the key_param list. */
  datatype Param = Param(idx: nat, opts: seq<string>)

  // ---- The rule -------------------------------------------------------------------------------

  /** The -keyopt values at the front, and the other options. */
  function Lead(opts: seq<Opt>): (r: (seq<string>, seq<Opt>))
    ensures |r.1| <= |opts| && (r.1 != [] ==> !r.1[0].KeyOpt?)
  {
    if opts == [] || !opts[0].KeyOpt? then ([], opts)
    else var (vs, rest) := Lead(opts[1..]); ([opts[0].value] + vs, rest)
  }

  function Cons(p: Pair, ps: Option<seq<Pair>>): Option<seq<Pair>> {
    if ps.None? then None else Some([p] + ps.value)
  }

  /** The pairs that the options stand for: a signer with the key given right after it, or right
      before it and not taken by a signer before, or with its own file as key; each with the key
      options that follow its parts.  None if a key has no signer or a key option no pair. */
  function Group(opts: seq<Opt>): Option<seq<Pair>>
    decreases |opts|, 0
  {
    if opts == [] then Some([])
    else match opts[0]
      case KeyOpt(_) => None
      case Signer(a) => Begun(Some(a), None, [], opts[1..])
      case Inkey(k) => Begun(None, Some(k), [], opts[1..])
  }

  /** The pairs when one has been begun: its signer, its key and its options so far. */
  function Begun(signer: Option<string>, key: Option<string>, vs: seq<string>, opts: seq<Opt>): Option<seq<Pair>>
    decreases |opts|, 1
  {
    var (ws, rest) := Lead(opts);
    match (signer, key)
    case (Some(a), Some(k)) => Cons(Pair(a, k, vs + ws), Group(rest))
    case (Some(a), None) =>
      if rest != [] && rest[0].Inkey? then Begun(signer, Some(rest[0].file), vs + ws, rest[1..])
      else Cons(Pair(a, a, vs + ws), Group(rest))
    case (None, Some(k)) =>
      if rest != [] && rest[0].Signer? then Begun(Some(rest[0].file), key, vs + ws, rest[1..]) else None
    case (None, None) => None
  }

  lemma BegunKeyOpt(signer: Option<string>, key: Option<string>, vs: seq<string>, opts: seq<Opt>)
    requires opts != [] && opts[0].KeyOpt?
    ensures Begun(signer, key, vs, opts) == Begun(signer, key, vs + [opts[0].value], opts[1..])
  {
    var ws := Lead(opts[1..]).0;
    assert vs + ([opts[0].value] + ws) == vs + [opts[0].value] + ws;
  }

  // ---- The machine ----------------------------------------------------------------------------

  /** The options of pair `i`: the first list entry with that index, as the signing loop looks it up. */
  function Found(params: seq<Param>, i: nat): seq<string> {
    if params == [] then [] else if params[0].idx == i then params[0].opts else Found(params[1..], i)
  }

  predicate Rising(params: seq<Param>, n: nat) {
    && (forall a, b :: 0 <= a < b < |params| ==> params[a].idx < params[b].idx)
    && (forall a :: 0 <= a < |params| ==> params[a].idx <= n)
  }

  /** Adding an option to the last entry if it has the index, or else in a new entry. */
  function Added(params: seq<Param>, n: nat, v: string): seq<Param> {
    var last := |params| - 1;
    if params == [] || params[last].idx != n then params + [Param(n, [v])]
    else params[last := Param(n, params[last].opts + [v])]
  }

  lemma AddedRising(params: seq<Param>, n: nat, v: string)
    requires Rising(params, n)
    ensures Rising(Added(params, n, v), n)
  {
  }

  lemma {:induction false} AddedFound(params: seq<Param>, n: nat, v: string, i: nat)
    requires Rising(params, n)
    ensures Found(Added(params, n, v), i) == if i == n then Found(params, n) + [v] else Found(params, i)
  {
    var q := Added(params, n, v);
    if params == [] {
      assert q == [Param(n, [v])] && Found(q[1..], i) == [];
    } else if |params| == 1 && params[0].idx == n {
      assert q == [Param(n, params[0].opts + [v])];
    } else {
      AddedTail(params, n, v);
      AddedFound(params[1..], n, v, i);
    }
  }

  lemma AddedTail(params: seq<Param>, n: nat, v: string)
    requires Rising(params, n) && params != [] && (|params| > 1 || params[0].idx != n)
    ensures var q := Added(params, n, v);
            q[0] == params[0] && q[1..] == Added(params[1..], n, v) && Rising(params[1..], n)
    ensures params[0].idx != n
  {
    if |params| > 1 { assert params[0].idx < params[1].idx; }
  }

  lemma {:induction false} NotFound(params: seq<Param>, n: nat)
    requires forall a :: 0 <= a < |params| ==> params[a].idx < n
    ensures Found(params, n) == []
  {
    if params != [] { NotFound(params[1..], n); }
  }

  /** The pairs on the two stacks with the options found for them. */
  function Pairs(signers: seq<string>, keys: seq<string>, params: seq<Param>): (ps: seq<Pair>)
    requires |signers| == |keys|
    ensures |ps| == |keys|
    ensures forall i :: 0 <= i < |keys| ==> ps[i] == Pair(signers[i], keys[i], Found(params, i))
  {
    seq(|keys|, i requires 0 <= i < |keys| => Pair(signers[i], keys[i], Found(params, i)))
  }

  function Before(done: seq<Pair>, rest: Option<seq<Pair>>): Option<seq<Pair>> {
    if rest.None? then None else Some(done + rest.value)
  }

  /** What is still to come: nothing begun, or a pair pending. */
  function Rest(signer: Option<string>, key: Option<string>, vs: seq<string>, opts: seq<Opt>): Option<seq<Pair>> {
    if signer.None? && key.None? then Group(opts) else Begun(signer, key, vs, opts)
  }

  lemma PairsPlus(signers: seq<string>, keys: seq<string>, params: seq<Param>, a: string, k: string)
    requires |signers| == |keys|
    ensures Pairs(signers + [a], keys + [k], params)
         == Pairs(signers, keys, params) + [Pair(a, k, Found(params, |keys|))]
  {
    var x := Pairs(signers + [a], keys + [k], params);
    var y := Pairs(signers, keys, params) + [Pair(a, k, Found(params, |keys|))];
    forall i | 0 <= i < |x| ensures x[i] == y[i] {}
  }

  lemma PushPair(signers: seq<string>, keys: seq<string>, params: seq<Param>, a: string, k: string,
                 rest: Option<seq<Pair>>)
    requires |signers| == |keys| && Rising(params, |keys|)
    ensures Before(Pairs(signers, keys, params), Cons(Pair(a, k, Found(params, |keys|)), rest))
         == Before(Pairs(signers + [a], keys + [k], params), rest)
    ensures Found(params, |keys| + 1) == []
  {
    PairsPlus(signers, keys, params, a, k);
    if rest.Some? {
      PlusAssoc(Pairs(signers, keys, params), [Pair(a, k, Found(params, |keys|))], rest.value);
    }
    NotFound(params, |keys| + 1);
  }

  lemma AddOption(signers: seq<string>, keys: seq<string>, params: seq<Param>, v: string)
    requires |signers| == |keys| && Rising(params, |keys|)
    ensures var q := Added(params, |keys|, v);
            && Rising(q, |keys|) && Pairs(signers, keys, q) == Pairs(signers, keys, params)
            && Found(q, |keys|) == Found(params, |keys|) + [v]
  {
    AddedRising(params, |keys|, v);
    AddedFound(params, |keys|, v, |keys|);
    forall i | 0 <= i < |keys| ensures Found(Added(params, |keys|, v), i) == Found(params, i) {
      AddedFound(params, |keys|, v, i);
    }
  }

  /** The pairs made so far and those that the rest of the options will make. */
  function Whole(signers: seq<string>, keys: seq<string>, params: seq<Param>,
                 signer: Option<string>, key: Option<string>, opts: seq<Opt>): Option<seq<Pair>>
    requires |signers| == |keys|
  {
    Before(Pairs(signers, keys, params), Rest(signer, key, Found(params, |keys|), opts))
  }

  lemma SignerStep(signers: seq<string>, keys: seq<string>, params: seq<Param>,
                   signer: Option<string>, key: Option<string>, opts: seq<Opt>)
    requires |signers| == |keys| && Rising(params, |keys|) && opts != [] && opts[0].Signer?
    requires signer.None? && key.None? ==> Found(params, |keys|) == []
    ensures var next := Some(opts[0].file);
            Whole(signers, keys, params, signer, key, opts) ==
              if signer.None? then Whole(signers, keys, params, next, key, opts[1..])
              else Whole(signers + [signer.value], keys + [if key.None? then signer.value else key.value], params,
                         next, None, opts[1..])
  {
    assert Lead(opts) == ([], opts);
    var vs := Found(params, |keys|);
    PlusNil(vs);
    if signer.Some? {
      var k := if key.None? then signer.value else key.value;
      PushPair(signers, keys, params, signer.value, k, Group(opts));
    }
  }

  lemma InkeyStep(signers: seq<string>, keys: seq<string>, params: seq<Param>,
                  signer: Option<string>, key: Option<string>, opts: seq<Opt>)
    requires |signers| == |keys| && Rising(params, |keys|) && opts != [] && opts[0].Inkey?
    requires signer.None? && key.None? ==> Found(params, |keys|) == []
    ensures var next := Some(opts[0].file);
            Whole(signers, keys, params, signer, key, opts) ==
              if key.None? then Whole(signers, keys, params, signer, next, opts[1..])
              else if signer.None? then None
              else Whole(signers + [signer.value], keys + [key.value], params, None, next, opts[1..])
  {
    assert Lead(opts) == ([], opts);
    var vs := Found(params, |keys|);
    PlusNil(vs);
    if signer.Some? && key.Some? {
      PushPair(signers, keys, params, signer.value, key.value, Group(opts));
    }
  }

  lemma EndStep(signers: seq<string>, keys: seq<string>, params: seq<Param>,
                signer: Option<string>, key: Option<string>)
    requires |signers| == |keys| && Rising(params, |keys|)
    ensures Whole(signers, keys, params, signer, key, []) ==
              if signer.None? then (if key.None? then Some(Pairs(signers, keys, params)) else None)
              else Some(Pairs(signers + [signer.value], keys + [if key.None? then signer.value else key.value], params))
  {
    assert Lead([]) == ([], []);
    if signer.Some? {
      var k := if key.None? then signer.value else key.value;
      var vs := Found(params, |keys|);
      PlusNil(vs);
      PushPair(signers, keys, params, signer.value, k, Some([]));
      assert Before(Pairs(signers + [signer.value], keys + [k], params), Some([])).value
          == Pairs(signers + [signer.value], keys + [k], params);
    } else if key.None? {
      assert Pairs(signers, keys, params) + [] == Pairs(signers, keys, params);
    }
  }

  lemma KeyOptStep(signers: seq<string>, keys: seq<string>, params: seq<Param>,
                   signer: Option<string>, key: Option<string>, opts: seq<Opt>)
    requires |signers| == |keys| && Rising(params, |keys|) && opts != [] && opts[0].KeyOpt?
    ensures Whole(signers, keys, params, signer, key, opts) ==
              if signer.None? && key.None? then None
              else Whole(signers, keys, Added(params, |keys|, opts[0].value), signer, key, opts[1..])
    ensures Rising(Added(params, |keys|, opts[0].value), |keys|)
  {
    AddOption(signers, keys, params, opts[0].value);
    BegunKeyOpt(signer, key, Found(params, |keys|), opts);
  }

  /** The loop invariant: what is left to do completes the pairs made so far to those of all options. */
  predicate OnWay(goal: Option<seq<Pair>>, signers: seq<string>, keys: seq<string>, params: seq<Param>,
                  signer: Option<string>, key: Option<string>, opts: seq<Opt>) {
    && |signers| == |keys| && Rising(params, |keys|)
    && (signer.None? && key.None? ==> keys == [] && params == [])
    && goal == Whole(signers, keys, params, signer, key, opts)
  }

  lemma Step(goal: Option<seq<Pair>>, signers: seq<string>, keys: seq<string>, params: seq<Param>,
             signer: Option<string>, key: Option<string>, opts: seq<Opt>)
    requires opts != [] && OnWay(goal, signers, keys, params, signer, key, opts)
    ensures opts[0].Signer? ==>
              if signer.None? then OnWay(goal, signers, keys, params, Some(opts[0].file), key, opts[1..])
              else OnWay(goal, signers + [signer.value], keys + [if key.None? then signer.value else key.value],
                         params, Some(opts[0].file), None, opts[1..])
    ensures opts[0].Inkey? ==>
              if key.None? then OnWay(goal, signers, keys, params, signer, Some(opts[0].file), opts[1..])
              else if signer.None? then goal == None
              else OnWay(goal, signers + [signer.value], keys + [key.value], params, None, Some(opts[0].file),
                         opts[1..])
    ensures opts[0].KeyOpt? ==>
              if signer.None? && key.None? then goal == None && |keys| == 0
              else OnWay(goal, signers, keys, Added(params, |keys|, opts[0].value), signer, key, opts[1..])
  {
    match opts[0]
    case Signer(_) => SignerStep(signers, keys, params, signer, key, opts);
    case Inkey(_) => InkeyStep(signers, keys, params, signer, key, opts);
    case KeyOpt(_) => KeyOptStep(signers, keys, params, signer, key, opts);
  }

  lemma Start(opts: seq<Opt>)
    ensures OnWay(Group(opts), [], [], [], None, None, opts)
  {
    if Group(opts).Some? { PlusNil(Group(opts).value); }
  }

  lemma End(goal: Option<seq<Pair>>, signers: seq<string>, keys: seq<string>, params: seq<Param>,
            signer: Option<string>, key: Option<string>)
    requires OnWay(goal, signers, keys, params, signer, key, [])
    ensures signer.None? && key.Some? ==> goal == None
    ensures signer.None? && key.None? ==> goal == Some([]) && |keys| == 0
    ensures signer.Some? ==>
              goal == Some(Pairs(signers + [signer.value],
                                 keys + [if key.None? then signer.value else key.value], params))
  {
    EndStep(signers, keys, params, signer, key);
  }

  /** The variables of the option loop. */
  class CommandLine {
    var signers: seq<string>
    var keys: seq<string>
    var params: seq<Param>
    var signerFile: Option<string>
    var keyFile: Option<string>

    ghost predicate Towards(goal: Option<seq<Pair>>, opts: seq<Opt>)
      reads this
    {
      OnWay(goal, signers, keys, params, signerFile, keyFile, opts)
    }

    constructor ()
      ensures signers == [] && keys == [] && params == [] && signerFile == None && keyFile == None
    {
      signers, keys, params, signerFile, keyFile := [], [], [], None, None;
    }

    /** -signer: a signer already pending is pushed with its key or its own file. */
    method TakeSigner(file: string, ghost goal: Option<seq<Pair>>, ghost rest: seq<Opt>)
      requires Towards(goal, [Signer(file)] + rest)
      modifies this
      ensures Towards(goal, rest)
    {
      Step(goal, signers, keys, params, signerFile, keyFile, [Signer(file)] + rest);
      assert ([Signer(file)] + rest)[1..] == rest;
      if signerFile.Some? {
        signers := signers + [signerFile.value];
        if keyFile.None? { keyFile := signerFile; }
        keys := keys + [keyFile.value];
        keyFile := None;
      }
      signerFile := Some(file);
    }

    /** -inkey: a key already pending is pushed with its signer, which it must have. */
    method TakeInkey(file: string, ghost goal: Option<seq<Pair>>, ghost rest: seq<Opt>) returns (ok: bool)
      requires Towards(goal, [Inkey(file)] + rest)
      modifies this
      ensures if ok then Towards(goal, rest) else goal == None
    {
      Step(goal, signers, keys, params, signerFile, keyFile, [Inkey(file)] + rest);
      assert ([Inkey(file)] + rest)[1..] == rest;
      if keyFile.Some? {
        if signerFile.None? { return false; }
        signers := signers + [signerFile.value];
        signerFile := None;
        keys := keys + [keyFile.value];
      }
      keyFile := Some(file);
      ok := true;
    }

    /** -keyopt: the value goes to the pair pending, by the index it will have. */
    method TakeKeyOpt(value: string, ghost goal: Option<seq<Pair>>, ghost rest: seq<Opt>) returns (ok: bool)
      requires Towards(goal, [KeyOpt(value)] + rest)
      modifies this
      ensures if ok then Towards(goal, rest) else goal == None
    {
      Step(goal, signers, keys, params, signerFile, keyFile, [KeyOpt(value)] + rest);
      assert ([KeyOpt(value)] + rest)[1..] == rest;
      var keyIdx := -1;
      if keyFile.Some? || signerFile.Some? { keyIdx := keyIdx + 1; }
      keyIdx := keyIdx + |keys|;
      if keyIdx < 0 { return false; }
      params := Added(params, keyIdx, value);
      ok := true;
    }

    /** The closing step. */
    method Finish(ghost goal: Option<seq<Pair>>) returns (ok: bool)
      requires Towards(goal, [])
      modifies this
      ensures ok <==> goal.Some? && goal.value != []
      ensures ok ==> |signers| == |keys| && Pairs(signers, keys, params) == goal.value
    {
      End(goal, signers, keys, params, signerFile, keyFile);
      if keyFile.Some? && signerFile.None? { return false; }
      if signerFile.Some? {
        signers := signers + [signerFile.value];
        if keyFile.None? { keyFile := signerFile; }
        keys := keys + [keyFile.value];
      }
      ok := signers != [];
    }

    /** The option loop: accepted are exactly the option lists that stand for some pairs, and the
        stacks and the options found for each index are those pairs. */
    method Parse(opts: seq<Opt>) returns (ok: bool)
      requires signers == [] && keys == [] && params == [] && signerFile == None && keyFile == None
      modifies this
      ensures ok <==> Group(opts).Some? && Group(opts).value != []
      ensures ok ==> |signers| == |keys| && Pairs(signers, keys, params) == Group(opts).value
    {
      var i := 0;
      ghost var goal := Group(opts);
      Start(opts);
      assert opts[0..] == opts;
      ok := true;
      while i < |opts|
        invariant i <= |opts| && Towards(goal, opts[i..])
      {
        assert opts[i..] == [opts[i]] + opts[i + 1..];
        match opts[i] {
          case Signer(file) => TakeSigner(file, goal, opts[i + 1..]);
          case Inkey(file) => ok := TakeInkey(file, goal, opts[i + 1..]);
          case KeyOpt(value) => ok := TakeKeyOpt(value, goal, opts[i + 1..]);
        }
        if !ok { return; }
        i := i + 1;
      }
      assert opts[i..] == [];
      ok := Finish(goal);
    }
  }

  // ---- What the pairs contain -----------------------------------------------------------------

  function Signers(opts: seq<Opt>): seq<string> {
    if opts == [] then [] else (if opts[0].Signer? then [opts[0].file] else []) + Signers(opts[1..])
  }

  function Inkeys(opts: seq<Opt>): seq<string> {
    if opts == [] then [] else (if opts[0].Inkey? then [opts[0].file] else []) + Inkeys(opts[1..])
  }

  function KeyOpts(opts: seq<Opt>): seq<string> {
    if opts == [] then [] else (if opts[0].KeyOpt? then [opts[0].value] else []) + KeyOpts(opts[1..])
  }

  function SignerFiles(ps: seq<Pair>): seq<string> {
    if ps == [] then [] else [ps[0].signer] + SignerFiles(ps[1..])
  }

  function AllOpts(ps: seq<Pair>): seq<string> {
    if ps == [] then [] else ps[0].opts + AllOpts(ps[1..])
  }

  /** The keys of the pairs are the given ones in order, except where a signer's own file is used. */
  predicate KeysGiven(ps: seq<Pair>, given: seq<string>) {
    if ps == [] then given == []
    else
      || (given != [] && ps[0].key == given[0] && KeysGiven(ps[1..], given[1..]))
      || (ps[0].key == ps[0].signer && KeysGiven(ps[1..], given))
  }

  lemma {:induction false} LeadContains(opts: seq<Opt>)
    ensures var (ws, rest) := Lead(opts);
            Signers(opts) == Signers(rest) && Inkeys(opts) == Inkeys(rest) && KeyOpts(opts) == ws + KeyOpts(rest)
  {
    if opts != [] && opts[0].KeyOpt? { LeadContains(opts[1..]); }
  }

  function Given(o: Option<string>): seq<string> {
    if o.Some? then [o.value] else []
  }

  /** What the pairs made from a begun pair and further options contain. */
  predicate Contains(ps: seq<Pair>, signers: seq<string>, keys: seq<string>, vs: seq<string>) {
    SignerFiles(ps) == signers && KeysGiven(ps, keys) && AllOpts(ps) == vs
  }

  lemma ConsContains(p: Pair, ps: seq<Pair>, signers: seq<string>, keys: seq<string>, vs: seq<string>)
    requires Contains(ps, signers, keys, vs)
    ensures Contains([p] + ps, [p.signer] + signers, [p.key] + keys, p.opts + vs)
    ensures p.key == p.signer ==> Contains([p] + ps, [p.signer] + signers, keys, p.opts + vs)
  {
    assert ([p] + ps)[1..] == ps && ([p.key] + keys)[1..] == keys;
  }

  /** Every signer occurs once and in order, every key given occurs once and in order, a signer
      without a key has its own file, and every key option occurs once and in order. */
  lemma {:induction false} GroupContains(opts: seq<Opt>)
    requires Group(opts).Some?
    ensures Contains(Group(opts).value, Signers(opts), Inkeys(opts), KeyOpts(opts))
    decreases |opts|, 0
  {
    if opts != [] {
      match opts[0]
      case KeyOpt(_) =>
      case Signer(a) => BegunContains(Some(a), None, [], opts[1..]);
      case Inkey(k) => BegunContains(None, Some(k), [], opts[1..]);
    }
  }

  lemma {:induction false} BegunContains(signer: Option<string>, key: Option<string>, vs: seq<string>, opts: seq<Opt>)
    requires Begun(signer, key, vs, opts).Some?
    ensures Contains(Begun(signer, key, vs, opts).value,
                     Given(signer) + Signers(opts), Given(key) + Inkeys(opts), vs + KeyOpts(opts))
    decreases |opts|, 1
  {
    LeadContains(opts);
    var (ws, rest) := Lead(opts);
    assert vs + (ws + KeyOpts(rest)) == vs + ws + KeyOpts(rest);
    assert [] + Inkeys(opts) == Inkeys(opts) && [] + Signers(opts) == Signers(opts);
    if signer.Some? && (key.Some? || rest == [] || !rest[0].Inkey?) {
      GroupContains(rest);
      var k := if key.Some? then key.value else signer.value;
      ConsContains(Pair(signer.value, k, vs + ws), Group(rest).value, Signers(rest), Inkeys(rest), KeyOpts(rest));
    } else if signer.Some? {
      JoinKey(signer.value, vs, opts);
    } else {
      JoinSigner(key.value, vs, opts);
    }
  }

  lemma {:induction false} JoinKey(a: string, vs: seq<string>, opts: seq<Opt>)
    requires Begun(Some(a), None, vs, opts).Some? && Lead(opts).1 != [] && Lead(opts).1[0].Inkey?
    ensures Contains(Begun(Some(a), None, vs, opts).value, [a] + Signers(opts), Inkeys(opts), vs + KeyOpts(opts))
    decreases |opts|, 0
  {
    LeadContains(opts);
    var (ws, rest) := Lead(opts);
    BegunContains(Some(a), Some(rest[0].file), vs + ws, rest[1..]);
    assert vs + (ws + KeyOpts(rest)) == vs + ws + KeyOpts(rest);
    assert [] + Signers(rest[1..]) == Signers(rest[1..]);
    assert [] + KeyOpts(rest[1..]) == KeyOpts(rest[1..]);
  }

  lemma {:induction false} JoinSigner(k: string, vs: seq<string>, opts: seq<Opt>)
    requires Begun(None, Some(k), vs, opts).Some?
    ensures Contains(Begun(None, Some(k), vs, opts).value, Signers(opts), [k] + Inkeys(opts), vs + KeyOpts(opts))
    decreases |opts|, 0
  {
    LeadContains(opts);
    var (ws, rest) := Lead(opts);
    BegunContains(Some(rest[0].file), Some(k), vs + ws, rest[1..]);
    assert vs + (ws + KeyOpts(rest)) == vs + ws + KeyOpts(rest);
    assert [] + Inkeys(rest[1..]) == Inkeys(rest[1..]);
    assert [] + KeyOpts(rest[1..]) == KeyOpts(rest[1..]);
  }

  // ---- Where a key option goes ----------------------------------------------------------------

  /** How many pairs are complete after some options, when a signer or a key was pending before. */
  function Completed(signer: bool, key: bool, opts: seq<Opt>): nat
    decreases |opts|
  {
    if opts == [] then 0
    else match opts[0]
      case KeyOpt(_) => Completed(signer, key, opts[1..])
      case Signer(_) => if signer then 1 + Completed(true, false, opts[1..]) else Completed(true, key, opts[1..])
      case Inkey(_) => if key then 1 + Completed(false, true, opts[1..]) else Completed(signer, true, opts[1..])
  }

  /** The last -signer or -inkey of some options. */
  function LastFile(opts: seq<Opt>): Option<Opt> {
    if opts == [] then None
    else if opts[|opts| - 1].KeyOpt? then LastFile(opts[..|opts| - 1])
    else Some(opts[|opts| - 1])
  }

  /** The pair has the file that an option names. */
  predicate HasFile(p: Pair, o: Opt) {
    (o.Signer? ==> p.signer == o.file) && (o.Inkey? ==> p.key == o.file)
  }

  lemma BegunSigner(signer: Option<string>, key: Option<string>, vs: seq<string>, opts: seq<Opt>)
    requires opts != [] && opts[0].Signer? && (signer.Some? || key.Some?)
    ensures Begun(signer, key, vs, opts) ==
              if signer.None? then Begun(Some(opts[0].file), key, vs, opts[1..])
              else Cons(Pair(signer.value, if key.None? then signer.value else key.value, vs),
                        Begun(Some(opts[0].file), None, [], opts[1..]))
  {
    assert Lead(opts) == ([], opts);
    PlusNil(vs);
  }

  lemma BegunInkey(signer: Option<string>, key: Option<string>, vs: seq<string>, opts: seq<Opt>)
    requires opts != [] && opts[0].Inkey? && (signer.Some? || key.Some?)
    ensures Begun(signer, key, vs, opts) ==
              if key.None? then Begun(signer, Some(opts[0].file), vs, opts[1..])
              else if signer.None? then None
              else Cons(Pair(signer.value, key.value, vs), Begun(None, Some(opts[0].file), [], opts[1..]))
  {
    assert Lead(opts) == ([], opts);
    PlusNil(vs);
  }

  /** The first pair keeps what it was begun with. */
  lemma {:induction false} BegunFirst(signer: Option<string>, key: Option<string>, vs: seq<string>, opts: seq<Opt>)
    requires Begun(signer, key, vs, opts).Some?
    ensures var ps := Begun(signer, key, vs, opts).value;
            && ps != [] && vs <= ps[0].opts
            && (signer.Some? ==> ps[0].signer == signer.value) && (key.Some? ==> ps[0].key == key.value)
    decreases |opts|
  {
    var (ws, rest) := Lead(opts);
    if signer.Some? && key.None? && rest != [] && rest[0].Inkey? {
      BegunFirst(signer, Some(rest[0].file), vs + ws, rest[1..]);
    } else if signer.None? {
      BegunFirst(Some(rest[0].file), key, vs + ws, rest[1..]);
    }
  }

  /** What is said of a key option `v` between `pre` and the rest, when a pair was begun before. */
  predicate Reached(ps: seq<Pair>, signer: Option<string>, key: Option<string>, pre: seq<Opt>, v: string) {
    var j := Completed(signer.Some?, key.Some?, pre);
    && j < |ps| && v in ps[j].opts
    && (LastFile(pre).Some? ==> HasFile(ps[j], LastFile(pre).value))
    && (LastFile(pre).None? ==>
          j == 0 && (signer.Some? ==> ps[0].signer == signer.value) && (key.Some? ==> ps[0].key == key.value))
  }

  lemma LastFileCons(o: Opt, rest: seq<Opt>)
    ensures LastFile([o] + rest) == if LastFile(rest).Some? then LastFile(rest) else if o.KeyOpt? then None else Some(o)
  {
    var s := [o] + rest;
    if rest == [] {
      assert s[..0] == [];
    } else {
      assert s[..|s| - 1] == [o] + rest[..|rest| - 1];
      LastFileCons(o, rest[..|rest| - 1]);
    }
  }

  lemma {:induction false} BegunReaches(signer: Option<string>, key: Option<string>, vs: seq<string>,
                                        pre: seq<Opt>, v: string, post: seq<Opt>)
    requires signer.Some? || key.Some?
    requires Begun(signer, key, vs, pre + [KeyOpt(v)] + post).Some?
    ensures Reached(Begun(signer, key, vs, pre + [KeyOpt(v)] + post).value, signer, key, pre, v)
    decreases |pre|, 1
  {
    var all := pre + [KeyOpt(v)] + post;
    if pre == [] {
      assert all[0] == KeyOpt(v) && all[1..] == post;
      BegunKeyOpt(signer, key, vs, all);
      BegunFirst(signer, key, vs + [v], post);
      assert v == (vs + [v])[|vs|];
    } else {
      var o, rest := pre[0], pre[1..];
      assert all[0] == o && all[1..] == rest + [KeyOpt(v)] + post;
      assert pre == [o] + rest;
      LastFileCons(o, rest);
      if o.KeyOpt? {
        BegunKeyOpt(signer, key, vs, all);
        BegunReaches(signer, key, vs + [o.value], rest, v, post);
      } else {
        FileReaches(signer, key, vs, pre, v, post);
      }
    }
  }

  lemma {:induction false} FileReaches(signer: Option<string>, key: Option<string>, vs: seq<string>,
                                       pre: seq<Opt>, v: string, post: seq<Opt>)
    requires (signer.Some? || key.Some?) && pre != [] && !pre[0].KeyOpt?
    requires Begun(signer, key, vs, pre + [KeyOpt(v)] + post).Some?
    ensures Reached(Begun(signer, key, vs, pre + [KeyOpt(v)] + post).value, signer, key, pre, v)
    decreases |pre|, 0
  {
    var all := pre + [KeyOpt(v)] + post;
    var o, rest := pre[0], pre[1..];
    assert all[0] == o && all[1..] == rest + [KeyOpt(v)] + post;
    assert pre == [o] + rest;
    LastFileCons(o, rest);
    if o.Signer? {
      BegunSigner(signer, key, vs, all);
      if signer.None? {
        BegunReaches(Some(o.file), key, vs, rest, v, post);
      } else {
        BegunReaches(Some(o.file), None, [], rest, v, post);
      }
    } else {
      BegunInkey(signer, key, vs, all);
      if key.None? {
        BegunReaches(signer, Some(o.file), vs, rest, v, post);
      } else {
        BegunReaches(None, Some(o.file), [], rest, v, post);
      }
    }
  }

  /** Every -keyopt reaches the pair that is pending when it is given: there is one, its index is the
      number of pairs complete by then, and it is the pair of the last -signer or -inkey before the
      option. */
  lemma KeyOptReaches(pre: seq<Opt>, v: string, post: seq<Opt>)
    requires Group(pre + [KeyOpt(v)] + post).Some?
    ensures LastFile(pre).Some?
    ensures var ps := Group(pre + [KeyOpt(v)] + post).value;
            var j := Completed(false, false, pre);
            j < |ps| && v in ps[j].opts && HasFile(ps[j], LastFile(pre).value)
  {
    var all := pre + [KeyOpt(v)] + post;
    assert all[0] == (pre + [KeyOpt(v)])[0];
    var o, rest := pre[0], pre[1..];
    assert all[1..] == rest + [KeyOpt(v)] + post;
    assert pre == [o] + rest;
    LastFileCons(o, rest);
    if o.Signer? {
      BegunReaches(Some(o.file), None, [], rest, v, post);
    } else {
      BegunReaches(None, Some(o.file), [], rest, v, post);
    }
  }

  // ---- Which option lists are accepted --------------------------------------------------------

  /** The -signer and -inkey options in order. */
  function Files(opts: seq<Opt>): (r: seq<Opt>)
    ensures forall k :: 0 <= k < |r| ==> !r[k].KeyOpt?
  {
    if opts == [] then [] else (if opts[0].KeyOpt? then [] else [opts[0]]) + Files(opts[1..])
  }

  /** They can be divided into pairs: a signer alone, or a signer and a key next to each other. */
  predicate Divides(files: seq<Opt>) {
    || files == []
    || (files[0].Signer? && Divides(files[1..]))
    || (|files| >= 2 && files[0].Signer? != files[1].Signer? && Divides(files[2..]))
  }

  lemma LeadFiles(opts: seq<Opt>)
    ensures Files(Lead(opts).1) == Files(opts)
  {
  }

  lemma FilesFirst(opts: seq<Opt>)
    requires opts != [] && !opts[0].KeyOpt?
    ensures Files(opts) == [opts[0]] + Files(opts[1..])
  {
  }

  /** Taking a key together with the signer before it loses nothing. */
  lemma SignerAndKey(s: Opt, k: Opt, files: seq<Opt>)
    requires s.Signer? && k.Inkey?
    ensures Divides([s] + ([k] + files)) <==> Divides(files)
    ensures Divides([k] + ([s] + files)) <==> Divides(files)
  {
    var a, b := [s] + ([k] + files), [k] + ([s] + files);
    assert a[1..] == [k] + files && a[2..] == files && b[1..] == [s] + files && b[2..] == files;
    if Divides([k] + files) {
      assert ([k] + files)[2..] == files[1..];
      assert Divides(files);
    }
  }

  lemma SignerAlone(s: Opt, files: seq<Opt>)
    requires s.Signer? && (files == [] || !files[0].Inkey?) && forall k :: 0 <= k < |files| ==> !files[k].KeyOpt?
    ensures Divides([s] + files) <==> Divides(files)
  {
    assert ([s] + files)[1..] == files;
  }

  lemma KeyAlone(k: Opt, files: seq<Opt>)
    requires k.Inkey? && (files == [] || !files[0].Signer?)
    ensures !Divides([k] + files)
  {
  }

  lemma {:induction false} BothExact(a: string, k: string, vs: seq<string>, opts: seq<Opt>)
    ensures Begun(Some(a), Some(k), vs, opts).Some? <==> Divides(Files(opts))
    decreases |opts|, 1
  {
    LeadFiles(opts);
    GroupExact(Lead(opts).1);
  }

  lemma {:induction false} SignerExact(a: string, vs: seq<string>, opts: seq<Opt>)
    ensures Begun(Some(a), None, vs, opts).Some? <==> Divides([Signer(a)] + Files(opts))
    decreases |opts|, 2
  {
    var (ws, rest) := Lead(opts);
    LeadFiles(opts);
    if rest != [] { FilesFirst(rest); }
    if rest != [] && rest[0].Inkey? {
      BothExact(a, rest[0].file, vs + ws, rest[1..]);
      SignerAndKey(Signer(a), rest[0], Files(rest[1..]));
    } else {
      GroupExact(rest);
      SignerAlone(Signer(a), Files(rest));
    }
  }

  lemma {:induction false} KeyExact(k: string, vs: seq<string>, opts: seq<Opt>)
    ensures Begun(None, Some(k), vs, opts).Some? <==> Divides([Inkey(k)] + Files(opts))
    decreases |opts|, 2
  {
    var (ws, rest) := Lead(opts);
    LeadFiles(opts);
    if rest != [] { FilesFirst(rest); }
    if rest != [] && rest[0].Signer? {
      BothExact(rest[0].file, k, vs + ws, rest[1..]);
      SignerAndKey(rest[0], Inkey(k), Files(rest[1..]));
    } else {
      KeyAlone(Inkey(k), Files(rest));
    }
  }

  /** The options stand for some pairs exactly if no -keyopt comes first and the signers and keys can be
      divided into signers alone and neighbouring signers and keys. */
  lemma {:induction false} GroupExact(opts: seq<Opt>)
    ensures Group(opts).Some? <==> (opts == [] || !opts[0].KeyOpt?) && Divides(Files(opts))
    decreases |opts|, 0
  {
    if opts != [] {
      if !opts[0].KeyOpt? { FilesFirst(opts); }
      match opts[0]
      case KeyOpt(_) =>
      case Signer(a) =>
        SignerExact(a, [], opts[1..]);
      case Inkey(k) =>
        KeyExact(k, [], opts[1..]);
    }
  }

  // ---- Where a signer and a key go ------------------------------------------------------------

  lemma {:induction false} BegunTakes(signer: Option<string>, key: Option<string>, vs: seq<string>,
                                      pre: seq<Opt>, o: Opt, post: seq<Opt>)
    requires (signer.Some? || key.Some?) && !o.KeyOpt?
    requires Begun(signer, key, vs, pre + [o] + post).Some?
    ensures var ps := Begun(signer, key, vs, pre + [o] + post).value;
            var j := Completed(signer.Some?, key.Some?, pre + [o]);
            j < |ps| && HasFile(ps[j], o)
    decreases |pre|
  {
    var all, upto := pre + [o] + post, pre + [o];
    var first, rest := all[0], upto[1..];
    assert upto[0] == first && all[1..] == rest + post;
    if pre == [] {
      assert rest == [] && all[1..] == post;
    } else {
      assert rest == pre[1..] + [o] && all[1..] == pre[1..] + [o] + post;
    }
    if first.KeyOpt? {
      BegunKeyOpt(signer, key, vs, all);
      BegunTakes(signer, key, vs + [first.value], pre[1..], o, post);
    } else if first.Signer? {
      BegunSigner(signer, key, vs, all);
      var k, ws := if signer.None? then key else None, if signer.None? then vs else [];
      if pre == [] {
        BegunFirst(Some(o.file), k, ws, post);
      } else {
        BegunTakes(Some(first.file), k, ws, pre[1..], o, post);
      }
    } else {
      BegunInkey(signer, key, vs, all);
      var a, ws := if key.None? then signer else None, if key.None? then vs else [];
      if pre == [] {
        BegunFirst(a, Some(o.file), ws, post);
      } else {
        BegunTakes(a, Some(first.file), ws, pre[1..], o, post);
      }
    }
  }

  /** Every -signer and -inkey is a part of the pair whose index is the number of pairs complete once it
      has been taken. */
  lemma FileTaken(pre: seq<Opt>, o: Opt, post: seq<Opt>)
    requires !o.KeyOpt? && Group(pre + [o] + post).Some?
    ensures var ps := Group(pre + [o] + post).value;
            var j := Completed(false, false, pre + [o]);
            j < |ps| && HasFile(ps[j], o)
  {
    var all := pre + [o] + post;
    if pre == [] {
      assert all[0] == o && all[1..] == post;
      assert Completed(false, false, [o]) == 0;
      BegunFirst(if o.Signer? then Some(o.file) else None, if o.Signer? then None else Some(o.file), [], post);
    } else {
      var first := pre[0];
      assert all[0] == first && all[1..] == pre[1..] + [o] + post;
      assert (pre + [o])[0] == first && (pre + [o])[1..] == pre[1..] + [o];
      if first.Signer? {
        BegunTakes(Some(first.file), None, [], pre[1..], o, post);
      } else {
        BegunTakes(None, Some(first.file), [], pre[1..], o, post);
      }
    }
  }
}
