/** The JSON that the API answers with: one id, or a list of ids. */
module ApiJson {
  import opened Wrappers
  import opened Sequences
  import opened EntityStoreValidation

  function IdJson(id: int): string {
    "{\"id\":" + ToString(id) + "}"
  }

  lemma {:induction false} IdJsonInjective(a: nat, b: nat)
    ensures IdJson(a) == IdJson(b) <==> a == b
  {
    var open := "{\"id\":";
    assert IdJson(a)[|open|..|IdJson(a)| - 1] == Decimal(a);
    assert IdJson(b)[|open|..|IdJson(b)| - 1] == Decimal(b);
    DecimalInjective(a, b);
  }

  function Joined(ids: seq<int>): string {
    if ids == [] then ""
    else if |ids| == 1 then ToString(ids[0])
    else Joined(ids[..|ids| - 1]) + "," + ToString(ids[|ids| - 1])
  }

  function ListJson(ids: seq<int>): string {
    "[" + Joined(ids) + "]"
  }

  /** The ids in a text with commas between them. */
  function Split(s: string): Option<seq<int>>
    decreases |s|
  {
    var n := IndexOf(s, ',');
    match ParsedId(s[..n])
    case None => None
    case Some(id) =>
      if n == |s| then Some([id])
      else
        match Split(s[n + 1..])
        case None => None
        case Some(ids) => Some([id] + ids)
  }

  /** How a client reads a listing. */
  function DecodeIds(body: string): Option<seq<int>> {
    if |body| < 2 || body[0] != '[' || body[|body| - 1] != ']' then None
    else if |body| == 2 then Some([])
    else Split(body[1..|body| - 1])
  }

  lemma {:induction false} JoinedCons(id: int, ids: seq<int>)
    requires ids != []
    ensures Joined([id] + ids) == ToString(id) + ("," + Joined(ids))
    decreases |ids|
  {
    var init, last := ids[..|ids| - 1], ids[|ids| - 1];
    assert ([id] + ids)[..|ids|] == [id] + init;
    if init == [] {
      assert Joined([id] + init) == ToString(id);
      assert ids == [last];
    } else {
      JoinedCons(id, init);
    }
  }

  lemma {:induction false} SplitPiece(id: nat, rest: string)
    ensures Split(Decimal(id) + ("," + rest)) ==
            match Split(rest) { case None => None case Some(ids) => Some([id as int] + ids) }
    ensures Split(Decimal(id)) == Some([id as int])
  {
    var piece := Decimal(id);
    ValueOfDecimal(id);
    IndexOfIs(piece, ',', |piece|);
    assert piece[..|piece|] == piece;
    var s := piece + ("," + rest);
    IndexOfIs(s, ',', |piece|);
    assert s[..|piece|] == piece && s[|piece| + 1..] == rest;
  }

  lemma {:induction false} SplitJoined(ids: seq<int>)
    requires ids != [] && forall i | 0 <= i < |ids| :: ids[i] >= 0
    ensures Split(Joined(ids)) == Some(ids)
    decreases |ids|
  {
    if |ids| == 1 {
      SplitPiece(ids[0], "");
      assert ids == [ids[0]];
    } else {
      assert ids == [ids[0]] + ids[1..];
      JoinedCons(ids[0], ids[1..]);
      SplitPiece(ids[0], Joined(ids[1..]));
      SplitJoined(ids[1..]);
    }
  }

  /** A client reads from a listing the ids that the server put in. */
  lemma {:induction false} DecodeListing(ids: seq<int>)
    requires forall i | 0 <= i < |ids| :: ids[i] >= 0
    ensures DecodeIds(ListJson(ids)) == Some(ids)
    ensures var body := ListJson(ids); body[0] == '[' && body[|body| - 1] == ']'
  {
    var body := ListJson(ids);
    assert body[1..|body| - 1] == Joined(ids);
    if ids != [] {
      assert Joined(ids) != "";
      SplitJoined(ids);
    }
  }
}
