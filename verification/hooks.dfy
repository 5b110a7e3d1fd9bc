/**
  The MediaWiki hooks of the extension as transitions on one request's
  state: the lazily created `KeyValue` singleton and the `keyvalue` table.
  The id of the page being processed (`$wgTitle`'s article id) is a
  parameter, since it comes from outside.
 */
module Hooks {
  import opened Instances
  import opened KeyValueStore

  /** The static `KeyValue::$instance`: not created yet, or created. */
  datatype Slot = Unset | Held(kv: KeyValue)

  /** What one request sees: the singleton and the table. */
  datatype Request = Request(instance: Slot, table: Table)

  /** An entry of the magic-word table: the case-sensitivity flag followed
      by the synonyms. */
  datatype MagicWord = MagicWord(caseSensitive: int, synonyms: seq<string>)

  /** The instance `getInstance` hands out: the existing one, or a fresh
      one for the current page. */
  function Current(req: Request, titleId: int): KeyValue {
    match req.instance
    case Held(kv) => kv
    case Unset => New(titleId)
  }

  /** `KeyValue::getInstance()`: created on first use for the current page,
      the same object on every later call; the table is not touched. */
  function GetInstance(req: Request, titleId: int): (res: (Request, KeyValue))
    ensures res.0.instance == Held(res.1)
    ensures res.0.table == req.table
    ensures req.instance.Held? ==> res.1 == req.instance.kv
    ensures req.instance.Unset? ==> res.1.articleId == titleId && res.1.kvs == []
  {
    var kv := Current(req, titleId);
    (Request(Held(kv), req.table), kv)
  }

  /** Once created, the singleton is handed out unchanged, whatever page the
      later caller is on. */
  lemma GetInstanceStable(req: Request, titleId: int, laterId: int)
    ensures var (req', kv) := GetInstance(req, titleId);
            GetInstance(req', laterId) == (req', kv)
  {
  }

  /** The `i`-th positional argument of a parser function call, or `''`
      when the call supplied fewer. */
  function Arg(args: seq<string>, i: nat): (a: string)
    ensures i < |args| ==> a == args[i]
    ensures i >= |args| ==> a == ""
  {
    if i < |args| then args[i] else ""
  }

  /** The triple a `{{#keyvalue:...}}` call with these arguments records:
      the first three arguments, missing ones empty, extra ones ignored. */
  function TripleOf(args: seq<string>): Instance {
    Instance(Arg(args, 0), Arg(args, 1), Arg(args, 2))
  }

  /** `keyValueRender`: records one triple in the shared pending list and
      renders as the value argument. */
  function Render(req: Request, titleId: int, args: seq<string>): (res: (Request, string))
    ensures res.1 == Arg(args, 2)
    ensures res.0.table == req.table
    ensures res.0.instance.Held?
    ensures res.0.instance.kv.articleId == Current(req, titleId).articleId
    ensures res.0.instance.kv.kvs == Current(req, titleId).kvs + [TripleOf(args)]
  {
    var kv := GetInstance(req, titleId).1;
    var kv' := Add(kv, Arg(args, 0), Arg(args, 1), Arg(args, 2));
    assert kv'.kvs == kv.kvs[..|kv.kvs|] + [TripleOf(args)];
    (Request(Held(kv'), req.table), Arg(args, 2))
  }

  /** Renders a page's calls in order. */
  function RenderAll(req: Request, titleId: int, calls: seq<seq<string>>): Request
    decreases |calls|
  {
    if |calls| == 0 then req
    else Render(RenderAll(req, titleId, calls[..|calls| - 1]), titleId, calls[|calls| - 1]).0
  }

  /** The triples a sequence of calls records, in call order. */
  function Triples(calls: seq<seq<string>>): (r: seq<Instance>)
    ensures |r| == |calls|
    ensures forall i :: 0 <= i < |calls| ==> r[i] == TripleOf(calls[i])
  {
    if |calls| == 0 then []
    else
      var init := calls[..|calls| - 1];
      assert forall i :: 0 <= i < |init| ==> init[i] == calls[i];
      Triples(init) + [TripleOf(calls[|calls| - 1])]
  }

  /** With the singleton in place, one render call appends its triple. */
  lemma RenderHeld(kv: KeyValue, table: Table, titleId: int, args: seq<string>)
    ensures Render(Request(Held(kv), table), titleId, args).0
      == Request(Held(kv.(kvs := kv.kvs + [TripleOf(args)])), table)
  {
  }

  /** Once the singleton exists, rendering calls extends its pending list
      by their triples and changes nothing else. */
  lemma {:induction false} RenderAllHeld(kv: KeyValue, table: Table, titleId: int, calls: seq<seq<string>>)
    ensures RenderAll(Request(Held(kv), table), titleId, calls)
      == Request(Held(kv.(kvs := kv.kvs + Triples(calls))), table)
    decreases |calls|
  {
    if |calls| == 0 {
      assert kv.kvs + Triples(calls) == kv.kvs;
    } else {
      var init := calls[..|calls| - 1];
      var x := TripleOf(calls[|calls| - 1]);
      RenderAllHeld(kv, table, titleId, init);
      RenderHeld(kv.(kvs := kv.kvs + Triples(init)), table, titleId, calls[|calls| - 1]);
      assert (kv.kvs + Triples(init)) + [x] == kv.kvs + (Triples(init) + [x]);
    }
  }

  /** Every call of a request lands in the one shared pending list, after
      whatever it already held and in call order. */
  lemma {:induction false} RenderAllAccumulates(req: Request, titleId: int, calls: seq<seq<string>>)
    ensures RenderAll(req, titleId, calls).table == req.table
    ensures Current(RenderAll(req, titleId, calls), titleId).articleId == Current(req, titleId).articleId
    ensures Current(RenderAll(req, titleId, calls), titleId).kvs == Current(req, titleId).kvs + Triples(calls)
  {
    var kv := Current(req, titleId);
    if |calls| == 0 {
      assert kv.kvs + Triples(calls) == kv.kvs;
    } else {
      RenderAllFromHeld(req, titleId, calls);
      RenderAllHeld(kv, req.table, titleId, calls);
    }
  }

  /** A non-empty run of calls behaves as if the singleton had been created
      before the first of them. */
  lemma {:induction false} RenderAllFromHeld(req: Request, titleId: int, calls: seq<seq<string>>)
    requires |calls| > 0
    ensures RenderAll(req, titleId, calls)
      == RenderAll(Request(Held(Current(req, titleId)), req.table), titleId, calls)
    decreases |calls|
  {
    var held := Request(Held(Current(req, titleId)), req.table);
    var init := calls[..|calls| - 1];
    if |init| == 0 {
      assert Render(req, titleId, calls[0]) == Render(held, titleId, calls[0]);
    } else {
      RenderAllFromHeld(req, titleId, init);
    }
  }

  /** Writes the singleton's pending list through `store`; shared by the
      save and delete hooks, which do exactly this. */
  function StoreCurrent(req: Request, titleId: int): (res: (Request, bool))
    ensures res.1
    ensures res.0.instance == Held(Current(req, titleId))
    ensures InstancesOf(RowsOf(res.0.table, Current(req, titleId).articleId)) == Current(req, titleId).kvs
    ensures forall other :: other != Current(req, titleId).articleId ==>
      RowsOf(res.0.table, other) == RowsOf(req.table, other)
  {
    var kv := GetInstance(req, titleId).1;
    (Request(Held(kv), Store(kv, req.table)), true)
  }

  /** `keyValueSaveComplete`: the pending list replaces the rows of the
      singleton's article; the hook returns true. */
  function SaveComplete(req: Request, titleId: int): (res: (Request, bool))
    ensures res.1
    ensures InstancesOf(RowsOf(res.0.table, Current(req, titleId).articleId)) == Current(req, titleId).kvs
    ensures forall other :: other != Current(req, titleId).articleId ==>
      RowsOf(res.0.table, other) == RowsOf(req.table, other)
  {
    StoreCurrent(req, titleId)
  }

  /** `keyValueDeleteComplete`: the same `store` call as on save, so a
      deletion in a request that rendered nothing clears the page's rows;
      the hook returns true. */
  function DeleteComplete(req: Request, titleId: int): (res: (Request, bool))
    ensures res.1
    ensures InstancesOf(RowsOf(res.0.table, Current(req, titleId).articleId)) == Current(req, titleId).kvs
    ensures req.instance.Unset? ==> RowsOf(res.0.table, titleId) == []
    ensures forall other :: other != Current(req, titleId).articleId ==>
      RowsOf(res.0.table, other) == RowsOf(req.table, other)
  {
    var res := StoreCurrent(req, titleId);
    assert |InstancesOf(RowsOf(res.0.table, Current(req, titleId).articleId))| == |Current(req, titleId).kvs|;
    res
  }

  /** Saving a page after rendering its calls persists exactly those
      triples, in order and with duplicates, for that page. */
  lemma {:induction false} RenderThenSave(titleId: int, table: Table, calls: seq<seq<string>>)
    ensures var req := RenderAll(Request(Unset, table), titleId, calls);
            var saved := SaveComplete(req, titleId).0.table;
            && InstancesOf(RowsOf(saved, titleId)) == Triples(calls)
            && |RowsOf(saved, titleId)| == |calls|
            && forall other :: other != titleId ==> RowsOf(saved, other) == RowsOf(table, other)
  {
    RenderAllAccumulates(Request(Unset, table), titleId, calls);
  }

  /** Two calls with the same category and key both reach the table: the
      save path neither sorts nor collapses duplicate keys, so the page
      gets one row per call. */
  lemma DuplicateKeysBothStored(titleId: int, table: Table, c: string, k: string, v1: string, v2: string)
    ensures var calls := [[c, k, v1], [c, k, v2]];
            var saved := SaveComplete(RenderAll(Request(Unset, table), titleId, calls), titleId).0.table;
            && InstancesOf(RowsOf(saved, titleId)) == [Instance(c, k, v1), Instance(c, k, v2)]
            && |RowsOf(saved, titleId)| == |calls|
  {
    var calls := [[c, k, v1], [c, k, v2]];
    RenderThenSave(titleId, table, calls);
    assert Triples(calls) == [TripleOf(calls[0]), TripleOf(calls[1])];
  }

  /** Running the save hook twice in a row leaves the same table as running
      it once. */
  lemma SaveIdempotent(req: Request, titleId: int)
    ensures var once := SaveComplete(req, titleId).0;
            SaveComplete(once, titleId).0.table == once.table
  {
    var kv := Current(req, titleId);
    StoreIdempotent(kv, req.table);
  }

  /** `keyValueParserFirstCallInit`: registers `keyValueRender` as the
      parser function for `keyvalue`; other registrations are kept and the
      hook returns true. */
  function ParserFirstCallInit(functionHooks: map<string, string>): (res: (map<string, string>, bool))
    ensures res.1
    ensures "keyvalue" in res.0 && res.0["keyvalue"] == "keyValueRender"
    ensures forall name :: name in functionHooks && name != "keyvalue" ==>
      name in res.0 && res.0[name] == functionHooks[name]
    ensures res.0.Keys == functionHooks.Keys + {"keyvalue"}
  {
    (functionHooks["keyvalue" := "keyValueRender"], true)
  }

  /** `keyValueLanguageGetMagic`: sets the `keyvalue` magic word to
      `[0, 'keyvalue']` (case-insensitive, one synonym) whatever the
      language, keeps the other words, and returns true. */
  function LanguageGetMagic(magicWords: map<string, MagicWord>, langCode: string): (res: (map<string, MagicWord>, bool))
    ensures res.1
    ensures "keyvalue" in res.0 && res.0["keyvalue"] == MagicWord(0, ["keyvalue"])
    ensures forall name :: name in magicWords && name != "keyvalue" ==>
      name in res.0 && res.0[name] == magicWords[name]
    ensures res.0.Keys == magicWords.Keys + {"keyvalue"}
  {
    (magicWords["keyvalue" := MagicWord(0, ["keyvalue"])], true)
  }
}
