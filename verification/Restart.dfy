/** Start-up from a records file that a removal has rewritten. */
module Restart {
  import opened TreeModel
  import opened Comparators
  import opened ServerModel
  import opened Persistence
  import opened Replay
  import PlainTree
  import WrittenTree
  import RepairedTree

  /** What the records of a file are added to the user tree as. */
  function Entries<P>(file: seq<Record>, blocks: seq<P>): seq<Entry<string, P>>
    requires |blocks| == |file|
  {
    seq(|file|, i requires 0 <= i < |file| => Entry(file[i].username, blocks[i]))
  }

  /** Adding a key the tree holds changes nothing. */
  lemma AddKnown<P>(ops: seq<Operation<string, P>>, e: Entry<string, P>)
    requires e.key in Contents(WrittenTree.PlainRun(DataCmp, ops))
    ensures PlainTree.Add(DataCmp, WrittenTree.PlainRun(DataCmp, ops), e) == WrittenTree.PlainRun(DataCmp, ops)
  {
    DataCmpIsOrder();
    WrittenTree.EveryRunIsPlain(DataCmp, ops);
    var t := WrittenTree.Run(DataCmp, ops).value;
    PlainTree.EraseKeepsMeaning(DataCmp, t);
    LookupReadsContents(DataCmp, t, e.key);
    PlainTree.KnownOrMissingKey(DataCmp, t, e.key);
    assert e == Entry(e.key, e.payload);
  }

  /** The replay loop of main is a run of avl_add. */
  lemma {:induction false} LoadIsRun<P>(file: seq<Record>, blocks: seq<P>)
    requires |blocks| == |file|
    ensures Load(file, blocks).0 == WrittenTree.PlainRun(DataCmp, Adds(Entries(file, blocks)))
  {
    if file != [] {
      var n := |file| - 1;
      var all, init := Entries(file, blocks), Entries(file[..n], blocks[..n]);
      assert all[..n] == init;
      LoadIsRun(file[..n], blocks[..n]);
      PlainRunStep(DataCmp, all);
      if file[n].username in Contents(Load(file[..n], blocks[..n]).0) {
        AddKnown(Adds(init), all[n]);
      }
    }
  }

  /** After a DEL, starting again from the file gives the user tree as written the shape of a
      list, as deep as there are users; the repaired tree would stay logarithmic. */
  lemma RewrittenFileDegenerates<P>(s: State<P>, name: string, pool: seq<string>, again: seq<P>)
    requires Inv(s) && UserNamed(s, name).Some? && |again| == |DelUser(s, name).0.file|
    ensures var t := DelUser(s, name).0;
            var ops := Adds(Entries(t.file, again));
            var users := Start(t.file, pool, again).users;
            && RightSpine(users) && Depth(users) == |Contents(t.users)|
            && WrittenTree.Run(DataCmp, ops).Some? && users == PlainTree.Erase(WrittenTree.Run(DataCmp, ops).value)
            && RepairedTree.Run(DataCmp, ops).Some?
            && RepairedTree.Pow2(Depth(RepairedTree.Run(DataCmp, ops).value) / 2) <= |Contents(t.users)| + 1
  {
    var t := DelUser(s, name).0;
    var entries := Entries(t.file, again);
    DataCmpIsOrder();
    DelCompacts(s, name);
    IncreasingIsAlphabetical(entries);
    LoadIsRun(t.file, again);
    PlainReplaySpine(DataCmp, entries);
    SpineDepth(Start(t.file, pool, again).users);
    WrittenTree.EveryRunIsPlain(DataCmp, Adds(entries));
    RepairedReplayShallow(DataCmp, entries);
  }
}
