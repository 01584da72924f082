// The rule-set document of converter.py:60-63:
//   "payload:\n" + "\n".join(f"  - '{d}'" for d in tokens) + "\n"
// and a reader for that shape, which recovers the tokens.

module Payload {
  import opened Text

  datatype Option<T> = None | Some(value: T)

  const Header: string := "payload:\n"
  const ItemOpen: string := "  - '"

  /** One list item: two spaces, a dash, and the token in single quotes. */
  function Item(t: string): string {
    ItemOpen + t + "'"
  }

  function Items(ts: seq<string>): (r: seq<string>)
    ensures |r| == |ts| && forall i :: 0 <= i < |ts| ==> r[i] == Item(ts[i])
  {
    if ts == [] then [] else [Item(ts[0])] + Items(ts[1..])
  }

  /** The text written to the output file (converter.py:60 and :63). */
  function Render(ts: seq<string>): string {
    Header + Join(Items(ts), '\n') + "\n"
  }

  /** Every item on its own line, each line ended by a newline. */
  function Lines(ts: seq<string>): string {
    if ts == [] then "" else Item(ts[0]) + "\n" + Lines(ts[1..])
  }

  /** For a non-empty token list the document is the header followed by one
      newline-terminated item line per token: no blank line anywhere. */
  lemma RenderAsLines(ts: seq<string>)
    requires ts != []
    ensures Render(ts) == Header + Lines(ts)
  {
    JoinAsLines(ts);
  }

  lemma {:induction false} JoinAsLines(ts: seq<string>)
    requires ts != []
    ensures Join(Items(ts), '\n') + "\n" == Lines(ts)
  {
    if |ts| > 1 {
      JoinAsLines(ts[1..]);
      assert Items(ts)[1..] == Items(ts[1..]);
      assert Join(Items(ts), '\n') == Item(ts[0]) + "\n" + Join(Items(ts[1..]), '\n');
    } else {
      assert Lines(ts[1..]) == "";
    }
  }

  /** Position of the first `c` in `s`, or `|s|` when there is none. */
  function IndexOf(s: string, c: char): (k: nat)
    ensures k <= |s|
    ensures c !in s[..k]
    ensures k < |s| ==> s[k] == c
  {
    if s == [] then 0
    else if s[0] == c then 0
    else
      var k := 1 + IndexOf(s[1..], c);
      assert s[..k] == [s[0]] + s[1..][..k - 1];
      k
  }

  /** Reads newline-terminated item lines back into their tokens. */
  function ParseItems(s: string): Option<seq<string>>
    decreases |s|
  {
    if s == [] then Some([])
    else if !(ItemOpen <= s) then None
    else
      var body := s[|ItemOpen|..];
      var k := IndexOf(body, '\'');
      if k + 1 < |body| && body[k + 1] == '\n' then
        match ParseItems(body[k + 2..])
        case Some(rest) => Some([body[..k]] + rest)
        case None => None
      else None
  }

  /** Reads a whole document back into its tokens. */
  function Parse(doc: string): Option<seq<string>> {
    if Header <= doc then ParseItems(doc[|Header|..]) else None
  }

  lemma {:induction false} ParseLines(ts: seq<string>)
    requires forall i :: 0 <= i < |ts| ==> '\'' !in ts[i]
    ensures ParseItems(Lines(ts)) == Some(ts)
  {
    if ts != [] {
      ParseLines(ts[1..]);
      ParseItemLine(ts[0], Lines(ts[1..]));
      assert [ts[0]] + ts[1..] == ts;
    }
  }

  /** One item line is read back as its token, and reading goes on after it. */
  lemma ParseItemLine(t: string, rest: string)
    requires '\'' !in t
    ensures ParseItems(Item(t) + "\n" + rest) ==
              match ParseItems(rest)
              case Some(more) => Some([t] + more)
              case None => None
  {
    var s := Item(t) + "\n" + rest;
    assert s == ItemOpen + (t + "'\n" + rest);
    var body := s[|ItemOpen|..];
    assert body == t + "'\n" + rest;
    IndexOfFirst(body, t);
    assert body[|t| + 2..] == rest;
  }

  lemma IndexOfFirst(s: string, t: string)
    requires |t| < |s| && s[..|t|] == t && '\'' !in t && s[|t|] == '\''
    ensures IndexOf(s, '\'') == |t|
  {
    var k := IndexOf(s, '\'');
    assert forall j :: 0 <= j < |t| ==> s[j] != '\'' by {
      forall j | 0 <= j < |t| ensures s[j] != '\'' {
        assert s[..|t|][j] == t[j];
      }
    }
    forall j | 0 <= j < k ensures s[j] != '\'' {
      assert s[..k][j] == s[j];
    }
  }

  /** Reading the document back gives exactly the tokens written, provided no
      token holds a single quote (which would end the item early). */
  lemma ParseRender(ts: seq<string>)
    requires ts != []
    requires forall i :: 0 <= i < |ts| ==> '\'' !in ts[i]
    ensures Parse(Render(ts)) == Some(ts)
  {
    RenderAsLines(ts);
    ParseLines(ts);
    assert Render(ts)[|Header|..] == Lines(ts);
  }
}
