/**
 * Small trees shaped like the diff test's fixtures, with the expected
 * change lists of the test table checked through `EqualChanges`.
 */
module DiffTreeScenarios {
  import opened Wrappers
  import opened PathOrder
  import opened TreeNoder
  import opened Changes
  import opened DiffTree
  import opened DiffTreeLaws

  function File(name: string, h: bv8): Node
  {
    Leaf(name, [h], Regular)
  }

  function Root(h: bv8, entries: seq<Node>): TreeNode
  {
    Tree("", [h], entries)
  }

  /** One file changed among three: a single Modify. */
  lemma GemEvalModified()
    ensures EqualChanges(
      Diff(Some(Root(1, [File("README", 1), File("gem_builder.rb", 2), File("gem_eval.rb", 3)])),
           Some(Root(2, [File("README", 1), File("gem_builder.rb", 2), File("gem_eval.rb", 4)]))),
      [Expected(Modify, "gem_eval.rb")])
  {
    var a := Root(1, [File("README", 1), File("gem_builder.rb", 2), File("gem_eval.rb", 3)]);
    var b := Root(2, [File("README", 1), File("gem_builder.rb", 2), File("gem_eval.rb", 4)]);
    DiffSeqOneApart([], a.children, b.children, 2);
    var c := Change(Some(Entry(["gem_eval.rb"], File("gem_eval.rb", 3))), Some(Entry(["gem_eval.rb"], File("gem_eval.rb", 4))));
    assert HashOf(a) != HashOf(b);
    assert HashOf(a.children[2]) != HashOf(b.children[2]);
    assert [] + ["gem_eval.rb"] == ["gem_eval.rb"];
    assert DiffPair([], a.children[2], b.children[2]) == [c];
    assert Diff(Some(a), Some(b)) == [c];
    SortSorted([c]);
  }

  /** One file removed and another added beside an unchanged one. */
  lemma RemoveAndAdd()
    ensures EqualChanges(
      Diff(Some(Root(1, [File("a", 1), File("b", 2)])),
           Some(Root(2, [File("a", 1), File("c", 3)]))),
      [Expected(Delete, "b"), Expected(Insert, "c")])
  {
  }

  /** The ts3 fixture's layout: three files and an `examples` directory with two more. */
  function Ts3(): TreeNode
  {
    Root(9, [
      File("README.markdown", 1),
      Tree("examples", [7], [File("bot.go", 2), File("raw_shell.go", 3)]),
      File("helpers.go", 4),
      File("ts3.go", 5)])
  }

  function Ts3Leaves(): seq<Entry>
  {
    [Entry(["README.markdown"], File("README.markdown", 1)),
     Entry(["examples", "bot.go"], File("bot.go", 2)),
     Entry(["examples", "raw_shell.go"], File("raw_shell.go", 3)),
     Entry(["helpers.go"], File("helpers.go", 4)),
     Entry(["ts3.go"], File("ts3.go", 5))]
  }

  /** The `examples` directory's two leaves, under `examples/`. */
  lemma ExamplesEnumerated()
    ensures Leaves([], Ts3().children[1]) == Ts3Leaves()[1..3]
  {
    var ex, es := Ts3().children[1], Ts3Leaves();
    var pre := ["examples"];
    assert [] + pre == pre;
    assert LeavesAll(pre, ex.children[1..]) == [es[2]] by {
      assert pre + ["raw_shell.go"] == es[2].path;
      assert Leaves(pre, ex.children[1]) == [es[2]];
    }
    assert Leaves(pre, ex.children[0]) == [es[1]] by {
      assert pre + ["bot.go"] == es[1].path;
    }
  }

  lemma Ts3Enumerated()
    ensures LeavesAll([], Ts3().children) == Ts3Leaves()
  {
    var t, es := Ts3(), Ts3Leaves();
    ExamplesEnumerated();
    assert LeavesAll([], t.children[3..]) == es[4..] by {
      assert [] + ["ts3.go"] == es[4].path;
      assert Leaves([], t.children[3]) == [es[4]];
    }
    assert LeavesAll([], t.children[2..]) == es[3..] by {
      assert [] + ["helpers.go"] == es[3].path;
      assert Leaves([], t.children[2]) == [es[3]];
      assert t.children[2..][1..] == t.children[3..];
    }
    assert LeavesAll([], t.children[1..]) == es[1..] by {
      assert t.children[1..][1..] == t.children[2..];
    }
    assert [] + ["README.markdown"] == es[0].path;
    assert Leaves([], t.children[0]) == [es[0]];
  }

  lemma Ts3InsertsListed()
    ensures Inserted(Ts3Leaves()) ==
      [Change(None, Some(Ts3Leaves()[0])), Change(None, Some(Ts3Leaves()[1])), Change(None, Some(Ts3Leaves()[2])),
       Change(None, Some(Ts3Leaves()[3])), Change(None, Some(Ts3Leaves()[4]))]
  {
  }

  lemma Ts3Names()
    ensures Name(Inserted(Ts3Leaves())[0]) == "README.markdown"
    ensures Name(Inserted(Ts3Leaves())[1]) == "examples/bot.go"
    ensures Name(Inserted(Ts3Leaves())[2]) == "examples/raw_shell.go"
    ensures Name(Inserted(Ts3Leaves())[3]) == "helpers.go"
    ensures Name(Inserted(Ts3Leaves())[4]) == "ts3.go"
  {
    Ts3InsertsListed();
  }

  lemma Ts3NameOrder()
    ensures StrLe("README.markdown", "examples/bot.go")
    ensures StrLe("examples/bot.go", "examples/raw_shell.go")
    ensures StrLe("examples/raw_shell.go", "helpers.go")
    ensures StrLe("helpers.go", "ts3.go")
  {
    assert StrLe("examples/bot.go", "examples/raw_shell.go") by {
      assert "examples/bot.go"[9..] == "bot.go" && "examples/raw_shell.go"[9..] == "raw_shell.go";
      assert StrLe("bot.go", "raw_shell.go");
    }
  }

  lemma Ts3InsertsSorted()
    ensures Sorted(Inserted(Ts3Leaves()))
  {
    var cs := Inserted(Ts3Leaves());
    Ts3Names();
    Ts3NameOrder();
    assert forall i :: 0 <= i < |cs| - 1 ==> StrLe(Name(cs[i]), Name(cs[i + 1])) by {
      assert StrLe(Name(cs[0]), Name(cs[1]));
      assert StrLe(Name(cs[1]), Name(cs[2]));
      assert StrLe(Name(cs[2]), Name(cs[3]));
      assert StrLe(Name(cs[3]), Name(cs[4]));
    }
  }

  lemma Ts3DiffIsInserts()
    ensures Diff(None, Some(Ts3())) == Inserted(Ts3Leaves())
  {
    DiffSeqFromNothing([], Ts3().children);
    Ts3Enumerated();
  }

  lemma Ts3AlreadySorted()
    ensures SortByName(Inserted(Ts3Leaves())) == Inserted(Ts3Leaves())
  {
    Ts3InsertsSorted();
    SortSorted(Inserted(Ts3Leaves()));
  }

  lemma Ts3RowsMatch()
    ensures |Inserted(Ts3Leaves())| == |Ts3Expected()|
    ensures forall i :: 0 <= i < |Ts3Expected()| ==>
      ActionOf(Inserted(Ts3Leaves())[i]) == Success(Ts3Expected()[i].action) &&
      Name(Inserted(Ts3Leaves())[i]) == Ts3Expected()[i].name
  {
    var cs, exp := Inserted(Ts3Leaves()), Ts3Expected();
    Ts3InsertsListed();
    Ts3Names();
    assert forall i :: 0 <= i < |exp| ==> ActionOf(cs[i]) == Success(exp[i].action) && Name(cs[i]) == exp[i].name by {
      assert Name(cs[0]) == exp[0].name && Name(cs[1]) == exp[1].name && Name(cs[2]) == exp[2].name;
      assert Name(cs[3]) == exp[3].name && Name(cs[4]) == exp[4].name;
    }
  }

  /** A nested tree inserted from nothing: leaves only, full paths, sorted by name. */
  lemma NestedInsert()
    ensures EqualChanges(Diff(None, Some(Ts3())), Ts3Expected())
  {
    Ts3DiffIsInserts();
    Ts3AlreadySorted();
    Ts3RowsMatch();
  }

  /** The test table's expected rows for the ts3 tree inserted from nothing. */
  function Ts3Expected(): seq<Expected>
  {
    [Expected(Insert, "README.markdown"),
     Expected(Insert, "examples/bot.go"),
     Expected(Insert, "examples/raw_shell.go"),
     Expected(Insert, "helpers.go"),
     Expected(Insert, "ts3.go")]
  }
}
