/**
 The message part of `send_email`: a fixed subject, and a body made of a fixed
 header followed by one title-and-link block per new match.
 */
module Notify {

  import opened Records

  const Subject: string := "Neue Ausschreibungen verfügbar!!"

  const Header: string := "Die folgenden neuen Übereinstimmungen wurden gefunden:\n\n"

  /** The block of one match: `Title: <title>\nLink: <link>\n\n`, a missing key
      being shown as `No Title` or `No Link`. */
  function Block(m: Record): string
  {
    "Title: " + Get(m, "title", "No Title") + "\nLink: " + Get(m, "link", "No Link") + "\n\n"
  }

  /** The layout of a block: `Title: `, the title (or `No Title`), `\nLink: `,
      the link (or `No Link`) and a blank line, each at its own place. */
  lemma BlockLayout(m: Record)
    ensures var r, t, l := Block(m), Get(m, "title", "No Title"), Get(m, "link", "No Link");
            && |r| == 16 + |t| + |l|
            && r[..7] == "Title: " && r[7..7 + |t|] == t
            && r[7 + |t|..14 + |t|] == "\nLink: " && r[14 + |t|..14 + |t| + |l|] == l
            && r[14 + |t| + |l|..] == "\n\n"
  {
  }

  /** The pieces of `parts` written one after the other. */
  function Joined(parts: seq<string>): string
  {
    if parts == [] then "" else Joined(parts[..|parts| - 1]) + parts[|parts| - 1]
  }

  /** Joining two lists of pieces is joining each and concatenating. */
  lemma {:induction false} JoinedAppend(a: seq<string>, b: seq<string>)
    ensures Joined(a + b) == Joined(a) + Joined(b)
  {
    if b == [] {
      assert a + b == a;
    } else {
      var n := |b| - 1;
      var c := a + b;
      assert c[..|c| - 1] == a + b[..n] && c[|c| - 1] == b[n];
      JoinedAppend(a, b[..n]);
      assert Joined(c) == (Joined(a) + Joined(b[..n])) + b[n];
      ConcatAssoc(Joined(a), Joined(b[..n]), b[n]);
    }
  }

  /** The block of each match, in the order given. */
  function BlockList(matches: seq<Record>): (r: seq<string>)
    ensures |r| == |matches|
    ensures forall k :: 0 <= k < |matches| ==> r[k] == Block(matches[k])
  {
    seq(|matches|, k requires 0 <= k < |matches| => Block(matches[k]))
  }

  /** The blocks of all matches, one after the other, in the order given. */
  function Blocks(matches: seq<Record>): string
  {
    Joined(BlockList(matches))
  }

  /** The blocks of two lists of matches are the blocks of the first list
      followed by those of the second. */
  lemma BlocksAppend(a: seq<Record>, b: seq<Record>)
    ensures Blocks(a + b) == Blocks(a) + Blocks(b)
  {
    assert BlockList(a + b) == BlockList(a) + BlockList(b);
    JoinedAppend(BlockList(a), BlockList(b));
  }

  /** Piece `k` sits in the joined string right after the pieces before it. */
  lemma JoinedAt(parts: seq<string>, k: nat)
    requires k < |parts|
    ensures var start := |Joined(parts[..k])|;
            start + |parts[k]| <= |Joined(parts)|
            && Joined(parts)[start..start + |parts[k]|] == parts[k]
  {
    assert parts == parts[..k + 1] + parts[k + 1..];
    JoinedAppend(parts[..k + 1], parts[k + 1..]);
    assert parts[..k + 1][..k] == parts[..k];
  }

  /** Piece `k` sits in a text made of a prefix and the joined pieces right
      after the prefix and the pieces before it. */
  lemma PieceAfter(prefix: string, parts: seq<string>, k: nat)
    requires k < |parts|
    ensures var start := |prefix| + |Joined(parts[..k])|;
            var text := prefix + Joined(parts);
            start + |parts[k]| <= |text| && text[start..start + |parts[k]|] == parts[k]
  {
    JoinedAt(parts, k);
    var i := |Joined(parts[..k])|;
    var rest := Joined(parts);
    assert (prefix + rest)[|prefix| + i..|prefix| + i + |parts[k]|] == rest[i..i + |parts[k]|];
  }

  /** Match `k` appears in the body as its own block, right after the header
      and the blocks of the matches before it. */
  lemma BlockAt(matches: seq<Record>, k: nat)
    requires k < |matches|
    ensures var start := |Header| + |Blocks(matches[..k])|;
            var body := Header + Blocks(matches);
            start + |Block(matches[k])| <= |body|
            && body[start..start + |Block(matches[k])|] == Block(matches[k])
  {
    var blocks := BlockList(matches);
    assert BlockList(matches[..k]) == blocks[..k];
    assert Blocks(matches[..k]) == Joined(blocks[..k]);
    assert Blocks(matches) == Joined(blocks);
    assert blocks[k] == Block(matches[k]);
    PieceAfter(Header, blocks, k);
  }

  /** For a record built by `Match.to_dict` no default is used. */
  lemma BlockOfMatch(title: string, link: string)
    ensures Block(ToDict(title, link)) == "Title: " + title + "\nLink: " + link + "\n\n"
  {
  }

  lemma ConcatAssoc(a: string, b: string, c: string)
    ensures (a + b) + c == a + (b + c)
  {
  }

  /** Lines 112-118: start from the header and append one block per match. */
  method ComposeBody(matches: seq<Record>) returns (body: string)
    ensures body == Header + Blocks(matches)
  {
    body := Header;
    ghost var blocks := BlockList(matches);
    for i := 0 to |matches|
      invariant body == Header + Joined(blocks[..i])
    {
      var title := Get(matches[i], "title", "No Title");
      var link := Get(matches[i], "link", "No Link");
      var block := "Title: " + title + "\nLink: " + link + "\n\n";
      assert block == blocks[i];
      assert blocks[..i + 1][..i] == blocks[..i];
      ConcatAssoc(Header, Joined(blocks[..i]), block);
      body := body + block;
    }
    assert blocks[..|matches|] == blocks;
  }
}
