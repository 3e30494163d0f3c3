/**
 * Client-side pagination of the player list (frontend/src/App.js).
 * Pages are numbered from 1 and hold at most PlayersPerPage players each.
 */
module Pagination {

  /** The fixed page size (the `playersPerPage` state, never updated). */
  const PlayersPerPage: nat := 20

  function Min(a: int, b: int): int { if a <= b then a else b }

  /** `indexOfLastPlayer`: one past the last position shown on `currentPage`. */
  function IndexOfLastPlayer(currentPage: int): int
  {
    currentPage * PlayersPerPage
  }

  /** `indexOfFirstPlayer`: the first position shown on `currentPage`. */
  function IndexOfFirstPlayer(currentPage: int): int
  {
    IndexOfLastPlayer(currentPage) - PlayersPerPage
  }

  /**
   * How `Array.prototype.slice` turns an argument into a position of an
   * array of length `len`: a negative one counts back from the end, and
   * the result is clamped to 0..len.
   */
  function RelativeIndex(k: int, len: nat): (r: nat)
    ensures r <= len
  {
    if k < 0 then (if len + k < 0 then 0 else len + k)
    else if k > len then len
    else k
  }

  /** `s.slice(start, end)`: empty when the clamped end is not after the clamped start. */
  function Slice<T>(s: seq<T>, start: int, end: int): seq<T>
  {
    var from := RelativeIndex(start, |s|);
    var to := RelativeIndex(end, |s|);
    if from < to then s[from..to] else []
  }

  /** A negative argument counts back from the end; one below -|s| acts as 0. */
  lemma SliceCountsFromEnd<T>(s: seq<T>, k: nat)
    ensures 0 < k <= |s| ==> Slice(s, -(k as int), |s|) == s[|s| - k..]
    ensures k > |s| ==> Slice(s, -(k as int), |s|) == s
  {
  }

  /** `currentPlayers`: the players shown on page `currentPage`. */
  function CurrentPlayers<T>(players: seq<T>, currentPage: int): seq<T>
  {
    Slice(players, IndexOfFirstPlayer(currentPage), IndexOfLastPlayer(currentPage))
  }

  /** `totalPages = Math.ceil(players.length / playersPerPage)`. */
  function TotalPages(n: nat): (r: nat)
    ensures n <= r * PlayersPerPage < n + PlayersPerPage
    ensures r == 0 <==> n == 0
  {
    (n + PlayersPerPage - 1) / PlayersPerPage
  }

  /** A page whose number is one of the rendered page buttons. */
  predicate IsPageNumber(totalPages: nat, page: int)
  {
    1 <= page <= totalPages
  }

  /**
   * `getPageNumbers`: a loop pushing 1, 2, ..., totalPages onto an
   * initially empty array.
   */
  method GetPageNumbers(totalPages: nat) returns (pageNumbers: seq<int>)
    ensures |pageNumbers| == totalPages
    ensures forall i :: 0 <= i < |pageNumbers| ==> pageNumbers[i] == i + 1
    ensures forall i, j :: 0 <= i < j < |pageNumbers| ==> pageNumbers[i] < pageNumbers[j]
    ensures forall page :: page in pageNumbers <==> IsPageNumber(totalPages, page)
  {
    pageNumbers := [];
    var i := 1;
    while i <= totalPages
      invariant 1 <= i <= totalPages + 1
      invariant |pageNumbers| == i - 1
      invariant forall k :: 0 <= k < |pageNumbers| ==> pageNumbers[k] == k + 1
    {
      pageNumbers := pageNumbers + [i];
      i := i + 1;
    }
    forall page | IsPageNumber(totalPages, page)
      ensures page in pageNumbers
    {
      assert pageNumbers[page - 1] == page;
    }
  }

  /** For a page numbered from 1, the shown players are positions (p-1)*20 up to min(p*20, n). */
  lemma CurrentPlayersIsPageSlice<T>(players: seq<T>, currentPage: int)
    requires currentPage >= 1
    ensures Min((currentPage - 1) * PlayersPerPage, |players|) <= Min(currentPage * PlayersPerPage, |players|)
    ensures CurrentPlayers(players, currentPage)
         == players[Min((currentPage - 1) * PlayersPerPage, |players|) .. Min(currentPage * PlayersPerPage, |players|)]
    ensures |CurrentPlayers(players, currentPage)| <= PlayersPerPage
  {
  }

  /** Every page with a button shows at least one player, beginning with player (p-1)*20. */
  lemma PageIsNonEmpty<T>(players: seq<T>, currentPage: int)
    requires IsPageNumber(TotalPages(|players|), currentPage)
    ensures (currentPage - 1) * PlayersPerPage < |players|
    ensures |CurrentPlayers(players, currentPage)| > 0
    ensures CurrentPlayers(players, currentPage)[0] == players[(currentPage - 1) * PlayersPerPage]
  {
  }

  /** The players of pages 1..k, one page after another. */
  function ConcatPages<T>(players: seq<T>, k: nat): seq<T>
  {
    if k == 0 then [] else ConcatPages(players, k - 1) + CurrentPlayers(players, k)
  }

  /** Pages 1..k together are the first min(k*20, n) players, in order. */
  lemma {:induction false} ConcatPagesIsPrefix<T>(players: seq<T>, k: nat)
    ensures ConcatPages(players, k) == players[..Min(k * PlayersPerPage, |players|)]
  {
    if k > 0 {
      ConcatPagesIsPrefix(players, k - 1);
      CurrentPlayersIsPageSlice(players, k);
      var a := Min((k - 1) * PlayersPerPage, |players|);
      var b := Min(k * PlayersPerPage, |players|);
      assert players[..a] + players[a..b] == players[..b];
    }
  }

  /** Concatenating the pages 1..totalPages gives back the whole list, in order. */
  lemma PagesConcatenateToPlayers<T>(players: seq<T>)
    ensures ConcatPages(players, TotalPages(|players|)) == players
  {
    ConcatPagesIsPrefix(players, TotalPages(|players|));
    assert players[..|players|] == players;
  }

  /** The first number of "Showing a-b of n players". */
  function ShowingFrom(currentPage: int): int
  {
    IndexOfFirstPlayer(currentPage) + 1
  }

  /** The second number of "Showing a-b of n players". */
  function ShowingTo(n: nat, currentPage: int): int
  {
    Min(IndexOfLastPlayer(currentPage), n)
  }

  /**
   * On a page with a button, "Showing a-b" names exactly the 1-based
   * positions of the players shown.
   */
  lemma ShowingRangeMatchesPage<T>(players: seq<T>, currentPage: int)
    requires IsPageNumber(TotalPages(|players|), currentPage)
    ensures 1 <= ShowingFrom(currentPage) <= ShowingTo(|players|, currentPage) <= |players|
    ensures ShowingTo(|players|, currentPage) - ShowingFrom(currentPage) + 1 == |CurrentPlayers(players, currentPage)|
    ensures forall i :: 0 <= i < |CurrentPlayers(players, currentPage)| ==>
              CurrentPlayers(players, currentPage)[i] == players[ShowingFrom(currentPage) - 1 + i]
  {
  }

  /** The "Previous" button is disabled when `currentPage === 1`. */
  predicate PreviousDisabled(currentPage: int)
  {
    currentPage == 1
  }

  /** The "Next" button is disabled when `currentPage === totalPages`. */
  predicate NextDisabled(currentPage: int, totalPages: nat)
  {
    currentPage == totalPages
  }

  /** The guard of `goToPreviousPage`. */
  predicate CanGoPrevious(currentPage: int)
  {
    currentPage > 1
  }

  /** The guard of `goToNextPage`. */
  predicate CanGoNext(currentPage: int, totalPages: nat)
  {
    currentPage < totalPages
  }

  /**
   * On a page with a button, each arrow is disabled exactly when its
   * handler's guard would leave the page unchanged.
   */
  lemma DisabledExactlyWhenGuardFails(currentPage: int, totalPages: nat)
    requires IsPageNumber(totalPages, currentPage)
    ensures PreviousDisabled(currentPage) <==> !CanGoPrevious(currentPage)
    ensures NextDisabled(currentPage, totalPages) <==> !CanGoNext(currentPage, totalPages)
  {
  }

  /** 45 players make three pages; the third shows players 41 to 45. */
  lemma FortyFivePlayers<T>(players: seq<T>)
    requires |players| == 45
    ensures TotalPages(|players|) == 3
    ensures CurrentPlayers(players, 3) == players[40..45]
    ensures ShowingFrom(3) == 41 && ShowingTo(|players|, 3) == 45
  {
  }
}
