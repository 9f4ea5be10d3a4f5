/**
  The reporter's answer field is an Atlassian Document Format tree: a list of
  blocks, of which only paragraphs carry text, each holding inline nodes of
  which only text nodes contribute characters. `extract_full_text` flattens
  that tree into one string.
 */
module Flatten {

  /** An inline node of a paragraph. A text node whose "text" key is absent
      is `TextNode("")`; every other node type (mention, emoji, ...) is `OtherInline`. */
  datatype Inline = TextNode(text: string) | OtherInline

  /** A top-level block. A paragraph whose "content" key is absent is
      `Paragraph([])`; every other block type is `OtherBlock`. */
  datatype Block = Paragraph(content: seq<Inline>) | OtherBlock

  /** A document; an absent "content" key is an empty list of blocks. */
  datatype Document = Document(content: seq<Block>)

  function InlineText(item: Inline): string {
    match item
    case TextNode(t) => t
    case OtherInline => ""
  }

  /** The text nodes' strings of a paragraph, concatenated in order. */
  function ParagraphText(items: seq<Inline>): string {
    if items == [] then ""
    else ParagraphText(items[..|items| - 1]) + InlineText(items[|items| - 1])
  }

  /** What one block adds to the flattened text: a paragraph's text and one space. */
  function BlockText(block: Block): string {
    match block
    case Paragraph(items) => ParagraphText(items) + " "
    case OtherBlock => ""
  }

  /** The flattened text of a list of blocks. */
  function FullText(blocks: seq<Block>): string {
    if blocks == [] then ""
    else FullText(blocks[..|blocks| - 1]) + BlockText(blocks[|blocks| - 1])
  }

  /** extract_full_text: the nested loops that accumulate the flattened text. */
  method ExtractFullText(adf: Document) returns (text: string)
    ensures text == FullText(adf.content)
  {
    var blocks := adf.content;
    text := "";
    for b := 0 to |blocks|
      invariant text == FullText(blocks[..b])
    {
      FullTextStep(blocks, b);
      if blocks[b].Paragraph? {
        var items := blocks[b].content;
        ghost var before := text;
        for k := 0 to |items|
          invariant text == before + ParagraphText(items[..k])
        {
          ParagraphTextStep(items, k);
          Associative(before, ParagraphText(items[..k]), InlineText(items[k]));
          if items[k].TextNode? {
            text := text + items[k].text;
          }
        }
        assert items[..|items|] == items;
        Associative(before, ParagraphText(items), " ");
        text := text + " ";
      }
    }
    assert blocks[..|blocks|] == blocks;
  }

  lemma Associative(a: string, b: string, c: string)
    ensures (a + b) + c == a + (b + c)
  {
  }

  lemma FullTextStep(blocks: seq<Block>, b: nat)
    requires b < |blocks|
    ensures FullText(blocks[..b + 1]) == FullText(blocks[..b]) + BlockText(blocks[b])
  {
    assert blocks[..b + 1][..b] == blocks[..b];
  }

  lemma ParagraphTextStep(items: seq<Inline>, k: nat)
    requires k < |items|
    ensures ParagraphText(items[..k + 1]) == ParagraphText(items[..k]) + InlineText(items[k])
  {
    assert items[..k + 1][..k] == items[..k];
  }

  /** Flattening distributes over concatenation of block lists. */
  lemma {:induction false} FullTextAppend(a: seq<Block>, b: seq<Block>)
    ensures FullText(a + b) == FullText(a) + FullText(b)
  {
    if b == [] {
      assert a + b == a;
    } else {
      assert (a + b)[..|a + b| - 1] == a + b[..|b| - 1];
      FullTextAppend(a, b[..|b| - 1]);
    }
  }

  /** The paragraph blocks of a list, in order. */
  function Paragraphs(blocks: seq<Block>): (ps: seq<Block>)
    ensures forall k :: 0 <= k < |ps| ==> ps[k].Paragraph?
  {
    if blocks == [] then []
    else
      var last := blocks[|blocks| - 1];
      Paragraphs(blocks[..|blocks| - 1]) + (if last.Paragraph? then [last] else [])
  }

  /** The text nodes of a paragraph, in order. */
  function TextNodes(items: seq<Inline>): (ts: seq<Inline>)
    ensures forall k :: 0 <= k < |ts| ==> ts[k].TextNode?
  {
    if items == [] then []
    else
      var last := items[|items| - 1];
      TextNodes(items[..|items| - 1]) + (if last.TextNode? then [last] else [])
  }

  lemma {:induction false} ParagraphTextAppend(a: seq<Inline>, b: seq<Inline>)
    ensures ParagraphText(a + b) == ParagraphText(a) + ParagraphText(b)
  {
    if b == [] {
      assert a + b == a;
    } else {
      assert (a + b)[..|a + b| - 1] == a + b[..|b| - 1];
      ParagraphTextAppend(a, b[..|b| - 1]);
    }
  }

  /** Inline nodes other than text nodes add nothing to a paragraph's text. */
  lemma {:induction false} OnlyTextNodesCount(items: seq<Inline>)
    ensures ParagraphText(items) == ParagraphText(TextNodes(items))
  {
    if items != [] {
      var init, last := items[..|items| - 1], items[|items| - 1];
      OnlyTextNodesCount(init);
      ParagraphTextAppend(TextNodes(init), if last.TextNode? then [last] else []);
      if last.TextNode? {
        assert [last][..0] == [];
      }
    }
  }

  /** Blocks other than paragraphs add nothing to the flattened text. */
  lemma {:induction false} OnlyParagraphsCount(blocks: seq<Block>)
    ensures FullText(blocks) == FullText(Paragraphs(blocks))
  {
    if blocks != [] {
      var init, last := blocks[..|blocks| - 1], blocks[|blocks| - 1];
      OnlyParagraphsCount(init);
      FullTextAppend(Paragraphs(init), if last.Paragraph? then [last] else []);
      if last.Paragraph? {
        assert [last][..0] == [];
      }
    }
  }

  /** A document without paragraph blocks flattens to the empty string. */
  lemma {:induction false} NoParagraphsNoText(blocks: seq<Block>)
    requires forall k :: 0 <= k < |blocks| ==> !blocks[k].Paragraph?
    ensures FullText(blocks) == ""
  {
    if blocks != [] {
      NoParagraphsNoText(blocks[..|blocks| - 1]);
    }
  }

  /** Whether no text node of any paragraph holds a character. */
  predicate Blank(blocks: seq<Block>) {
    forall b, k :: 0 <= b < |blocks| && blocks[b].Paragraph? && 0 <= k < |blocks[b].content| ==>
      InlineText(blocks[b].content[k]) == ""
  }

  lemma {:induction false} BlankParagraph(items: seq<Inline>)
    requires forall k :: 0 <= k < |items| ==> InlineText(items[k]) == ""
    ensures ParagraphText(items) == ""
  {
    if items != [] {
      BlankParagraph(items[..|items| - 1]);
    }
  }

  /** A blank document flattens to one space per paragraph and nothing else. */
  lemma {:induction false} BlankIsSpaces(blocks: seq<Block>)
    requires Blank(blocks)
    ensures forall k :: 0 <= k < |FullText(blocks)| ==> FullText(blocks)[k] == ' '
    ensures |FullText(blocks)| == |Paragraphs(blocks)|
  {
    if blocks != [] {
      var init, last := blocks[..|blocks| - 1], blocks[|blocks| - 1];
      assert Blank(init) by {
        forall b, k | 0 <= b < |init| && init[b].Paragraph? && 0 <= k < |init[b].content|
          ensures InlineText(init[b].content[k]) == ""
        {
          assert init[b] == blocks[b];
        }
      }
      BlankIsSpaces(init);
      if last.Paragraph? {
        BlankParagraph(last.content);
      }
    }
  }
}
