/**
 * The pure parts of a TOTP list row, src/ui/totplist_item.go: the displayed code, the
 * move-menu visibility, and moveEntry's adjacent swap that feeds Store.Reorder.
 */
module ListItem {
  import opened Wrappers
  import opened Bytes
  import opened Errors
  import opened TotpEntry
  import TotpStore
  import Totp
  import Decimal

  /** The code shown when generation fails. */
  const NO_CODE: string := "------"

  /** The code text of a row: a 6-character code is split 3 + 3 by a space, others are shown as they are. */
  function DisplayCode(code: Result<string, Error>): (text: string)
    ensures code.Failure? ==> text == NO_CODE
    ensures code.Success? && |code.value| == 6 ==>
      |text| == 7 && text[3] == ' ' && text[..3] + text[4..] == code.value
    ensures code.Success? && |code.value| != 6 ==> text == code.value
  {
    match code
    case Failure(_) => NO_CODE
    case Success(c) =>
      if |c| == 6 then
        var text := c[..3] + " " + c[3..];
        assert text[..3] + text[4..] == c;
        text
      else c
  }

  /** A 6-digit entry shows six decimal digits in two groups of three, or the placeholder. */
  lemma SixDigitDisplay(e: Entry, unix: int64, hmac: Totp.Mac)
    requires Totp.ValidMac(hmac) && e.period != 0 && e.digits == 6
    ensures Totp.Modulus(e.digits) != 0
    ensures var text := DisplayCode(EntryCode(e, unix, hmac));
      || text == NO_CODE
      || (&& |text| == 7 && text[3] == ' '
          && forall i :: 0 <= i < 7 && i != 3 ==> Decimal.IsDigit(text[i]))
  {
    Totp.ModulusExact(6);
    var r := EntryCode(e, unix, hmac);
    if r.Success? {
      GroupedDigits(r.value);
    }
  }

  /** Six decimal digits are shown as two groups of three digits around a space. */
  lemma GroupedDigits(code: string)
    requires |code| == 6 && Decimal.AllDigits(code)
    ensures var text := DisplayCode(Success(code));
      && |text| == 7 && text[3] == ' '
      && forall i :: 0 <= i < 7 && i != 3 ==> Decimal.IsDigit(text[i])
  {
    var text := DisplayCode(Success(code));
    forall i | 0 <= i < 7 && i != 3
      ensures Decimal.IsDigit(text[i])
    {
      if i < 3 {
        assert text[i] == code[i];
      } else {
        assert text[i] == code[i - 1];
      }
    }
  }

  /** One entry of the row's pop-up menu. */
  datatype MenuItem = MoveUp | MoveDown | Separator | Edit | ShowQR | Delete

  /**
   * showEntryMenu's items for the row at `index` of `total`: the move items only where the row
   * can move, a separator after them if there are any, then edit, QR code, separator, delete.
   */
  function MenuItems(index: int, total: int): (items: seq<MenuItem>)
    ensures MoveUp in items <==> index > 0
    ensures MoveDown in items <==> index < total - 1
    ensures |items| >= 4 && items[|items| - 4..] == [Edit, ShowQR, Separator, Delete]
    ensures (index > 0 || index < total - 1) ==> items[|items| - 5] == Separator
    ensures !(index > 0 || index < total - 1) ==> items == [Edit, ShowQR, Separator, Delete]
  {
    var tail := [Edit, ShowQR, Separator, Delete];
    if index > 0 && index < total - 1 then [MoveUp, MoveDown, Separator] + tail
    else if index > 0 then [MoveUp, Separator] + tail
    else if index < total - 1 then [MoveDown, Separator] + tail
    else tail
  }

  /** The IDs of a list, in order. */
  function IdsOf(es: seq<Entry>): (ids: seq<string>)
    ensures |ids| == |es| && forall i :: 0 <= i < |es| ==> ids[i] == es[i].id
  {
    seq(|es|, i requires 0 <= i < |es| => es[i].id)
  }

  /** moveEntry's search loop: it does not stop at a match, so the last position with the ID wins. */
  function LastPosition(es: seq<Entry>, id: string): (t: int)
    ensures -1 <= t < |es|
    ensures t >= 0 ==> es[t].id == id && forall j :: t < j < |es| ==> es[j].id != id
    ensures t == -1 ==> forall j :: 0 <= j < |es| ==> es[j].id != id
  {
    if |es| == 0 then -1
    else if es[|es| - 1].id == id then |es| - 1
    else
      var t := LastPosition(es[..|es| - 1], id);
      assert forall j :: 0 <= j < |es| - 1 ==> es[j] == es[..|es| - 1][j];
      t
  }

  /**
   * The ID list moveEntry passes to Reorder: the shown IDs with the target swapped with its
   * neighbour in the direction given. None when moveEntry returns without calling Reorder.
   */
  function MoveIds(shown: seq<Entry>, id: string, direction: int): (r: Option<seq<string>>)
    ensures r.None? <==>
      var t := LastPosition(shown, id);
      t < 0 || t + direction < 0 || t + direction >= |shown|
    ensures r.Some? ==>
      var t, ids := LastPosition(shown, id), IdsOf(shown);
      && |r.value| == |ids|
      && r.value[t] == ids[t + direction] && r.value[t + direction] == ids[t]
      && (forall k :: 0 <= k < |ids| && k != t && k != t + direction ==> r.value[k] == ids[k])
      && multiset(r.value) == multiset(ids)
  {
    var ids := IdsOf(shown);
    var t := LastPosition(shown, id);
    if t < 0 then None
    else
      var u := t + direction;
      if u < 0 || u >= |ids| then None
      else
        var swapped := ids[t := ids[u]][u := ids[t]];
        SwapMultiset(ids, t, u);
        Some(swapped)
  }

  /** Exchanging two positions keeps the same elements. */
  lemma SwapMultiset<T>(s: seq<T>, i: int, j: int)
    requires 0 <= i < |s| && 0 <= j < |s|
    ensures multiset(s[i := s[j]][j := s[i]]) == multiset(s)
  {
    if i != j {
      var t := s[i := s[j]];
      assert t[j] == s[j];
      assert multiset(t) == multiset(s) - multiset{s[i]} + multiset{s[j]};
      assert multiset(t[j := s[i]]) == multiset(t) - multiset{s[j]} + multiset{s[i]};
    }
  }

  /** moveEntry: Reorder with the swapped IDs, or nothing when the move is not possible. */
  function MoveEntry(s: TotpStore.Store, shown: seq<Entry>, id: string, direction: int): (r: TotpStore.Store)
    requires |shown| <= TWO_TO_63
    ensures MoveIds(shown, id, direction).None? ==> r == s
    ensures MoveIds(shown, id, direction).Some? ==>
      r == TotpStore.Reorder(s, MoveIds(shown, id, direction).value)
  {
    match MoveIds(shown, id, direction)
    case None => s
    case Some(ids) => TotpStore.Reorder(s, ids)
  }

  // ---------------------------------------------------------------------------
  // Properties.

  /** Moving the first row up or the last row down changes nothing. */
  lemma MoveAtEdgeNoop(s: TotpStore.Store, shown: seq<Entry>, id: string)
    requires |shown| <= TWO_TO_63 && |shown| > 0
    ensures shown[0].id == id && TotpStore.DistinctIds(shown) ==> MoveEntry(s, shown, id, -1) == s
    ensures shown[|shown| - 1].id == id ==> MoveEntry(s, shown, id, 1) == s
  {
    if shown[0].id == id && TotpStore.DistinctIds(shown) {
      assert LastPosition(shown, id) == 0;
    }
  }

  /** A permutation of a list with unique IDs has unique IDs too, and the same IDs. */
  lemma PermutationIds(es: seq<Entry>, out: seq<Entry>)
    requires TotpStore.DistinctIds(es) && multiset(out) == multiset(es)
    ensures TotpStore.DistinctIds(out)
    ensures forall i :: 0 <= i < |es| ==> es[i].id in IdsOf(out)
  {
    forall i, j | 0 <= i < j < |out|
      ensures out[i].id != out[j].id
    {
      if out[i].id == out[j].id {
        assert out[i] in multiset(es) && out[j] in multiset(es);
        var a :| 0 <= a < |es| && es[a] == out[i];
        var b :| 0 <= b < |es| && es[b] == out[j];
        assert a == b;
        TotpStore.RepeatTwice(out, i, j);
        TotpStore.DistinctOnce(es, out[i]);
        assert false;
      }
    }
    forall i | 0 <= i < |es|
      ensures es[i].id in IdsOf(out)
    {
      assert es[i] in multiset(out);
      var k :| 0 <= k < |out| && out[k] == es[i];
      assert IdsOf(out)[k] == es[i].id;
    }
  }

  /** With unique IDs the last position of an ID is its only position. */
  lemma LastPositionUnique(es: seq<Entry>, id: string, t: int)
    requires TotpStore.DistinctIds(es) && 0 <= t < |es| && es[t].id == id
    ensures LastPosition(es, id) == t
  {
    var p := LastPosition(es, id);
    if p < t {
      assert false;
    } else if p > t {
      assert false;
    }
  }

  /** Every ID of a list with unique IDs is still in the swapped list handed to Reorder. */
  lemma MoveIdsCover(es: seq<Entry>, shown: seq<Entry>, id: string, direction: int)
    requires TotpStore.DistinctIds(es) && multiset(shown) == multiset(es)
    requires MoveIds(shown, id, direction).Some?
    ensures var ids := MoveIds(shown, id, direction).value;
      |ids| == |es| && forall i :: 0 <= i < |es| ==> es[i].id in ids
  {
    var ids := MoveIds(shown, id, direction).value;
    assert |shown| == |es| by {
      assert |multiset(shown)| == |multiset(es)|;
    }
    PermutationIds(es, shown);
    forall i | 0 <= i < |es|
      ensures es[i].id in ids
    {
      assert es[i].id in multiset(IdsOf(shown));
      assert es[i].id in multiset(ids);
    }
  }

  /**
   * On a store with unique IDs whose rows are shown as GetAll lists them, a possible move puts
   * the entry one row up (direction -1) or down (+1) in the next listing.
   */
  lemma MoveShowsNeighbour(s: TotpStore.Store, id: string, t: int, direction: int)
    requires TotpStore.DistinctIds(s.entries) && |s.entries| <= TWO_TO_63
    requires 0 <= t < |s.entries| && TotpStore.GetAll(s)[t].id == id
    requires direction == -1 || direction == 1
    requires 0 <= t + direction < |s.entries|
    ensures var shown := TotpStore.GetAll(s);
      var out := TotpStore.GetAll(MoveEntry(s, shown, id, direction));
      |out| == |shown| && out[t + direction].id == id && out[t].id == shown[t + direction].id
  {
    var shown := TotpStore.GetAll(s);
    PermutationIds(s.entries, shown);
    SwapAt(shown, id, t, direction);
    var ids := MoveIds(shown, id, direction).value;
    MoveIdsCover(s.entries, shown, id, direction);
    TotpStore.ReorderThenGetAll(s, ids);
  }

  /** With unique IDs, the row at t is the one moved, and it trades places with its neighbour. */
  lemma SwapAt(shown: seq<Entry>, id: string, t: int, direction: int)
    requires TotpStore.DistinctIds(shown) && 0 <= t < |shown| && shown[t].id == id
    requires 0 <= t + direction < |shown|
    ensures MoveIds(shown, id, direction).Some?
    ensures var ids := MoveIds(shown, id, direction).value;
      ids[t + direction] == id && ids[t] == shown[t + direction].id
  {
    LastPositionUnique(shown, id, t);
  }
}
