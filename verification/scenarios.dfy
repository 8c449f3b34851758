/** Concrete responses and what `extract_commands` makes of them. */
module Scenarios {
  import opened Wrappers
  import opened Text
  import opened Extractor

  /** A command without a backtick holds no closing fence. */
  lemma NoBacktickNoFence(s: string)
    requires forall k :: 0 <= k < |s| ==> s[k] != '`'
    ensures NoFence(s, 0, |s|)
  {
    forall k | 0 <= k < |s|
      ensures !FenceAt(s, k)
    {
      if FenceAt(s, k) {
        FenceChar(s, k);
      }
    }
  }

  /** A block in the layout the agent's instructions ask for. */
  lemma PlainBlock()
    ensures Extract("```execute\nls -la\n```") == [Item("ls -la", false)]
  {
    var item := Item("ls -la", false);
    NoBacktickNoFence(item.command);
    assert RenderAll([item]) == "```execute\nls -la\n```";
    RenderRoundTrip([item]);
  }

  /** Scanning passes over text without a backtick: no tag starts there. */
  lemma {:induction false} SkipPlain(t: string, p: nat, q: nat)
    requires p <= q <= |t|
    requires forall k :: p <= k < q ==> t[k] != '`'
    ensures Scan(t, p) == Scan(t, q)
    decreases q - p
  {
    if p < q {
      SkipPlain(t, p, q - 1);
      ScanSkip(t, q - 1);
    }
  }

  /** Prose without backticks, then blocks in the instructed layout: the
      prose contributes nothing and the blocks give back their items. */
  lemma ProseThenBlocks(prose: string, items: seq<Item>)
    requires forall k :: 0 <= k < |prose| ==> prose[k] != '`'
    requires AllRenderable(items)
    ensures Extract(prose + RenderAll(items)) == items
  {
    var t := prose + RenderAll(items);
    assert t[|prose|..] == RenderAll(items);
    forall k | 0 <= k < |prose|
      ensures t[k] != '`'
    {
      assert t[k] == prose[k];
    }
    SkipPlain(t, 0, |prose|);
    ScanRendered(t, |prose|, items);
    ExtractIsScan(t);
  }

  /** A block after a line of prose, as a model typically answers. */
  lemma ProseThenBlock()
    ensures Extract("run: ```execute\nls -la\n```") == [Item("ls -la", false)]
  {
    LsBlock();
    ProseThenBlocks("run: ", [Item("ls -la", false)]);
  }

  /** The pieces of that answer. */
  lemma LsBlock()
    ensures AllRenderable([Item("ls -la", false)])
    ensures "run: " + RenderAll([Item("ls -la", false)]) == "run: ```execute\nls -la\n```"
    ensures forall k :: 0 <= k < |"run: "| ==> "run: "[k] != '`'
  {
    var item := Item("ls -la", false);
    NoBacktickNoFence(item.command);
    assert RenderAll([item]) == Render(item) + RenderAll([]);
  }

  /** The same layout with the marker asks for feedback. */
  lemma FeedbackBlock()
    ensures Extract("```execute #feedback\ndf -h\n```") == [Item("df -h", true)]
  {
    var item := Item("df -h", true);
    NoBacktickNoFence(item.command);
    assert RenderAll([item]) == "```execute #feedback\ndf -h\n```";
    RenderRoundTrip([item]);
  }

  /** Two blocks written back to back stay two commands. */
  lemma AdjacentBlocks()
    ensures Extract("```execute\nls\n``````execute\npwd\n```") == [Item("ls", false), Item("pwd", false)]
  {
    var a := Item("ls", false);
    var b := Item("pwd", false);
    PlainRenderable(a.command);
    PlainRenderable(b.command);
    assert Render(a) + Render(b) == "```execute\nls\n``````execute\npwd\n```";
    TwoBlocks(a, b);
  }

  /** A short command of letters can be carried by a block. */
  lemma PlainRenderable(c: string)
    requires 0 < |c| < |Marker|
    requires forall k :: 0 <= k < |c| ==> 'a' <= c[k] <= 'z'
    ensures Renderable(Item(c, false))
  {
    NoBacktickNoFence(c);
  }

  /** Any two blocks in the instructed layout, back to back. */
  lemma TwoBlocks(a: Item, b: Item)
    requires Renderable(a) && Renderable(b)
    ensures Extract(Render(a) + Render(b)) == [a, b]
  {
    assert [a, b][1..] == [b] && [b][1..] == [];
    assert RenderAll([b]) == Render(b) + RenderAll([]);
    assert RenderAll([a, b]) == Render(a) + RenderAll([b]);
    assert RenderAll([a, b]) == Render(a) + Render(b);
    RenderRoundTrip([a, b]);
  }

  /** A text that is one whole match from start to end extracts to that match's item. */
  lemma WholeMatch(t: string, m: Parse)
    requires MatchAt(t, 0) == Some(m) && m.end == |t|
    ensures Extract(t) == [ItemOf(t, m)]
  {
    ScanStep(t, 0);
    ScanAtEnd(t);
    ExtractIsScan(t);
    assert ItemsOf(t, [m]) == [ItemOf(t, m)] + ItemsOf(t, []);
  }

  /** A block with no whitespace at all around its command: the tag, the
      command and the fence, glued together. */
  lemma TightBlock(c: string)
    requires IsStripped(c) && forall k :: 0 <= k < |c| ==> c[k] != '`'
    ensures Extract(Tag + c + Fence) == [Item(c, false)]
  {
    var t := Tag + c + Fence;
    var e := |Tag|;
    var f := |Tag| + |c|;
    assert t[..e] == Tag;
    assert t[f..] == Fence;
    assert t[e..f] == c;
    assert t[e] == if |c| > 0 then c[0] else '`';
    SpanSpaceUnique(t, e, e);
    assert TagEnd(t, 0) == e;
    forall k | e <= k < f
      ensures !FenceAt(t, k)
    {
      assert t[k] == c[k - e];
      NoSliceAt(t, k, Fence, 0);
    }
    FindFenceUnique(t, e, f);
    MatchAtParts(t, 0, e, e, f);
    if |c| > 0 {
      assert t[f - 1] == c[|c| - 1];
    }
    assert TrimBack(t, e, f) == f;
    WholeMatch(t, Parse(0, e, e, f, f + |Fence|));
    StripKeepsStripped(c);
    assert t[e..e] == "";
  }

  /** A block with nothing in it gives one empty command. */
  lemma EmptyBlock()
    ensures Extract("```execute```") == [Item("", false)]
  {
    TightBlock("");
    assert Tag + "" + Fence == "```execute```";
  }

  /** Without whitespace before it, `#feedback` is not the marker: it stays
      in the command and the flag is not set. */
  lemma GluedMarker()
    ensures Extract("```execute#feedback ls```") == [Item("#feedback ls", false)]
  {
    GluedCommand();
    TightBlock("#feedback ls");
    GluedText();
  }

  lemma GluedCommand()
    ensures IsStripped("#feedback ls")
    ensures forall k :: 0 <= k < |"#feedback ls"| ==> "#feedback ls"[k] != '`'
  {
  }

  lemma GluedText()
    ensures Tag + "#feedback ls" + Fence == "```execute#feedback ls```"
  {
  }
}
