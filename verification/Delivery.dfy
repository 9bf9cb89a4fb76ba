/** An agent text on its whole way: from the ingest through the journal and the body of /recv to its reader. */
module Delivery {
  import opened Basics
  import opened Wire
  import opened Store
  import opened Journal
  import opened RecvBody

  /** What a reader parses from the body printed for a drained item. */
  function Read(a: AgentItem): RecvItem {
    Parse(Print(RecordToItem(ItemToRecord(a))))
  }

  lemma ExtractShortens(text: string)
    ensures ExtractCid(text).0 == text <==> !HasToken(text)
  {
    TokenIff(text);
    if HasToken(text) {
      TokenEndsBehindItsOpening(text);
      assert |ExtractCid(text).0| < |text|;
    }
  }

  /**
    The reader of a text gets the bytes that were ingested, if and only if they neither end in
    their only newline nor start with a token; the rest of the item is a text's either way.
   */
  lemma TextArrivesIff(a: AgentItem, sender: string, bytes: seq<byte>)
    requires IsTextItem(a, sender, bytes) && OneLine(sender)
    ensures var text, r := a.text.value, Read(a);
            && r.kind == "text" && r.sender == sender && r.path == "" && r.hasText
            && (SameBytes(r.text, bytes) <==> !EndsInItsOnlyNewline(text) && !HasToken(text))
  {
    var text := a.text.value;
    RecordRoundTrip(a);
    assert OneLine("text");
    ParsePrinted(a);
    var r := Read(a);
    SameTextIff(r.text, text, bytes);
    ExtractShortens(Kept(text));
    ExtractIsNoLonger(Kept(text));
  }

  lemma SameTextIff(s: string, text: string, bytes: seq<byte>)
    requires SameBytes(text, bytes)
    ensures SameBytes(s, bytes) <==> s == text
  {
    if SameBytes(s, bytes) {
      assert forall j :: 0 <= j < |text| ==> s[j] as int == text[j] as int;
    }
  }

  /** The reader of a file gets the path it was saved under and the kind it has. */
  lemma FileArrives(a: AgentItem, kind: string, sender: string, path: string)
    requires IsFileItem(a, kind, sender, path) && OneLine(sender) && OneLine(path) && path != ""
    ensures var r := Read(a);
            && r.kind == (if kind == "image" then "image" else "file") && r.sender == sender && r.path == path
            && !r.hasText
  {
    RecordRoundTrip(a);
    assert OneLine("image") && OneLine("file");
    assert a.kind == if kind == "image" then "image" else "file";
    ParsePrinted(a);
  }
}
