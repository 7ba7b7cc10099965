/** The card records of the memory game and the board builder: the fetched
    card list is laid out twice, rearranged, and every card is relabelled
    with the slot it landed in. */
module Cards {
  import opened Permutations

  /** A card as fetched from the catalog. */
  datatype Card = Card(id: int, name: string, image: string)

  /** A card laid on the board. `id` is its slot, `content` is what two
      cards are compared on, and `flipped` is a display flag the engine
      never sets after dealing. */
  datatype BoardCard = BoardCard(id: int, name: string, image: string, flipped: bool, content: string)

  /** The picture a card shows: its name together with its image. */
  type Face = (string, string)

  function CardFace(c: Card): Face {
    (c.name, c.image)
  }

  function BoardFace(b: BoardCard): Face {
    (b.name, b.image)
  }

  function CardFaces(cards: seq<Card>): (r: seq<Face>)
    ensures |r| == |cards|
    ensures forall i :: 0 <= i < |cards| ==> r[i] == CardFace(cards[i])
  {
    seq(|cards|, i requires 0 <= i < |cards| => CardFace(cards[i]))
  }

  function BoardFaces(board: seq<BoardCard>): (r: seq<Face>)
    ensures |r| == |board|
    ensures forall i :: 0 <= i < |board| ==> r[i] == BoardFace(board[i])
  {
    seq(|board|, i requires 0 <= i < |board| => BoardFace(board[i]))
  }

  function Names(cards: seq<Card>): (r: seq<string>)
    ensures |r| == |cards|
    ensures forall i :: 0 <= i < |cards| ==> r[i] == cards[i].name
  {
    seq(|cards|, i requires 0 <= i < |cards| => cards[i].name)
  }

  /** What each slot is compared on. */
  function Contents(board: seq<BoardCard>): (r: seq<string>)
    ensures |r| == |board|
    ensures forall i :: 0 <= i < |board| ==> r[i] == board[i].content
  {
    seq(|board|, i requires 0 <= i < |board| => board[i].content)
  }

  /** The card `c` dealt face down into slot `slot`; the catalog id is
      replaced by the slot. */
  function Deal(c: Card, slot: nat): BoardCard {
    BoardCard(slot, c.name, c.image, false, c.name)
  }

  /** The board built from `cards`: the list is doubled, rearranged by the
      permutation `perm` (standing for the random sort), and each card is
      dealt into its new position. */
  function Shuffle(cards: seq<Card>, perm: seq<nat>): (board: seq<BoardCard>)
    requires IsPermutation(perm, 2 * |cards|)
    ensures |board| == 2 * |cards|
    ensures forall i :: 0 <= i < |board| ==>
              board[i].id == i && !board[i].flipped && board[i].content == board[i].name
    ensures forall i :: 0 <= i < |board| ==>
              BoardFace(board[i]) == CardFace((cards + cards)[perm[i]])
  {
    var arranged := Permute(cards + cards, perm);
    seq(|arranged|, i requires 0 <= i < |arranged| => Deal(arranged[i], i))
  }

  /** Reading the faces off the board gives the doubled list's faces,
      rearranged by the same permutation. */
  lemma ShuffleFaces(cards: seq<Card>, perm: seq<nat>)
    requires IsPermutation(perm, 2 * |cards|)
    ensures BoardFaces(Shuffle(cards, perm)) == Permute(CardFaces(cards) + CardFaces(cards), perm)
  {
  }

  /** The board holds every fetched card's face exactly twice as often as the
      fetched list does: nothing is lost, invented or over-represented. */
  lemma ShuffleKeepsFaces(cards: seq<Card>, perm: seq<nat>)
    requires IsPermutation(perm, 2 * |cards|)
    ensures multiset(BoardFaces(Shuffle(cards, perm)))
         == multiset(CardFaces(cards)) + multiset(CardFaces(cards))
  {
    ShuffleFaces(cards, perm);
    PermuteMultiset(CardFaces(cards) + CardFaces(cards), perm);
  }

  /** When the fetched names are distinct, every name is the content of
      exactly two slots of the board, and no other string is the content of
      any slot: the board consists of pairs. */
  lemma ShuffleDealsPairs(cards: seq<Card>, perm: seq<nat>, name: string)
    requires IsPermutation(perm, 2 * |cards|)
    requires Distinct(Names(cards))
    ensures multiset(Contents(Shuffle(cards, perm)))[name]
         == if name in Names(cards) then 2 else 0
  {
    var names := Names(cards);
    var board := Shuffle(cards, perm);
    assert Contents(board) == Permute(names + names, perm) by {
      assert names + names == Names(cards + cards);
    }
    PermuteMultiset(names + names, perm);
    DistinctOccursOnce(names, name);
  }
}
