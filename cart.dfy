/** The shopping cart of client/src/hooks/use-cart.tsx. The provider's
    `items` state is a field that each operation replaces with the result of
    an updater (the functions given to setItems); `total` and `itemCount`
    are folds over it. Restoring and saving the cart in localStorage is not
    modelled, so a cart starts empty. */
module Cart {
  import opened Common
  import opened Schema

  /** One line of the cart: the book as it was when first added, and a count. */
  datatype CartItem = CartItem(book: Book, quantity: int)

  function ItemBookId(i: CartItem): int { i.book.id }
  function Quantity(i: CartItem): int { i.quantity }
  function LineTotal(i: CartItem): int { i.book.price * i.quantity }

  predicate HasBook(items: seq<CartItem>, id: int) {
    exists i :: 0 <= i < |items| && items[i].book.id == id
  }

  /** The cart's invariant: at most one entry per book id. */
  predicate OneEntryPerBook(items: seq<CartItem>) {
    UniqueKey(items, ItemBookId)
  }

  function SameBook(id: int): CartItem -> bool { (i: CartItem) => i.book.id == id }
  function OtherBook(id: int): CartItem -> bool { (i: CartItem) => i.book.id != id }
  function AddQuantity(id: int, quantity: int): CartItem -> CartItem {
    (i: CartItem) => if i.book.id == id then i.(quantity := i.quantity + quantity) else i
  }
  function SetQuantity(id: int, quantity: int): CartItem -> CartItem {
    (i: CartItem) => if i.book.id == id then i.(quantity := quantity) else i
  }

  // ---------------------------------------------------------------------
  // The updaters
  // ---------------------------------------------------------------------

  /** addToCart's updater: bump the existing entries of the book, or append one. */
  function AddedTo(items: seq<CartItem>, book: Book, quantity: int): seq<CartItem> {
    if First(items, SameBook(book.id)).Some? then MapSeq(items, AddQuantity(book.id, quantity))
    else items + [CartItem(book, quantity)]
  }

  /** removeFromCart's updater. */
  function RemovedFrom(items: seq<CartItem>, id: int): seq<CartItem> {
    Filter(items, OtherBook(id))
  }

  /** updateQuantity's updater for a positive quantity. */
  function QuantitySet(items: seq<CartItem>, id: int, quantity: int): seq<CartItem> {
    MapSeq(items, SetQuantity(id, quantity))
  }

  /** The `total` of the cart: the sum of price times quantity. */
  function CartTotal(items: seq<CartItem>): int {
    SumOf(items, LineTotal)
  }

  /** The `itemCount` of the cart: the sum of the quantities. */
  function CartItemCount(items: seq<CartItem>): int {
    SumOf(items, Quantity)
  }

  // ---------------------------------------------------------------------
  // The provider's state
  // ---------------------------------------------------------------------

  class CartState {
    var items: seq<CartItem>
    var isOpen: bool

    ghost predicate Valid()
      reads this
    {
      OneEntryPerBook(items)
    }

    constructor ()
      ensures items == [] && !isOpen && Valid()
    {
      items := [];
      isOpen := false;
    }

    /** Adds `quantity` copies of `book` (one by default) and opens the cart drawer. */
    method AddToCart(book: Book, quantity: int := 1)
      modifies this
      ensures items == AddedTo(old(items), book, quantity)
      ensures isOpen
      ensures old(Valid()) ==> Valid()
      ensures old(Valid()) ==> CartItemCount(items) == old(CartItemCount(items)) + quantity
    {
      if OneEntryPerBook(items) {
        AddKeepsOneEntryPerBook(items, book, quantity);
        AddRaisesTotals(items, book, quantity);
      }
      items := AddedTo(items, book, quantity);
      isOpen := true;
    }

    method RemoveFromCart(bookId: int)
      modifies this`items
      ensures items == RemovedFrom(old(items), bookId)
      ensures !HasBook(items, bookId)
      ensures old(Valid()) ==> Valid()
    {
      if OneEntryPerBook(items) {
        RemoveKeepsOneEntryPerBook(items, bookId);
      }
      RemoveDropsExactlyTheBook(items, bookId);
      items := RemovedFrom(items, bookId);
    }

    /** A quantity of zero or less removes the book; any other sets it. */
    method UpdateQuantity(bookId: int, quantity: int)
      modifies this`items
      ensures quantity <= 0 ==> items == RemovedFrom(old(items), bookId)
      ensures quantity > 0 ==> items == QuantitySet(old(items), bookId, quantity)
      ensures old(Valid()) ==> Valid()
    {
      if quantity <= 0 {
        RemoveFromCart(bookId);
        return;
      }
      SetQuantityKeepsShape(items, bookId, quantity);
      items := QuantitySet(items, bookId, quantity);
    }

    method ClearCart()
      modifies this`items
      ensures items == [] && Valid()
      ensures CartTotal(items) == 0 && CartItemCount(items) == 0
    {
      items := [];
    }
  }

  // ---------------------------------------------------------------------
  // Properties of the updaters
  // ---------------------------------------------------------------------

  lemma FirstFindsBook(items: seq<CartItem>, id: int)
    ensures First(items, SameBook(id)).Some? <==> HasBook(items, id)
  {
    if HasBook(items, id) {
      var i :| 0 <= i < |items| && items[i].book.id == id;
      assert SameBook(id)(items[i]);
    }
  }

  /** Adding a book already in the cart keeps the length, the order and every
      entry's book, and adds `quantity` to the entries of that book only. */
  lemma AddExistingBumpsQuantity(items: seq<CartItem>, book: Book, quantity: int)
    requires HasBook(items, book.id)
    ensures var r := AddedTo(items, book, quantity);
      |r| == |items| &&
      forall i :: 0 <= i < |items| ==>
        r[i].book == items[i].book &&
        r[i].quantity == items[i].quantity + (if items[i].book.id == book.id then quantity else 0)
  {
    FirstFindsBook(items, book.id);
  }

  /** Adding a book not in the cart appends exactly one entry at the end. */
  lemma AddNewAppends(items: seq<CartItem>, book: Book, quantity: int)
    requires !HasBook(items, book.id)
    ensures AddedTo(items, book, quantity) == items + [CartItem(book, quantity)]
  {
    FirstFindsBook(items, book.id);
  }

  lemma AddKeepsOneEntryPerBook(items: seq<CartItem>, book: Book, quantity: int)
    requires OneEntryPerBook(items)
    ensures OneEntryPerBook(AddedTo(items, book, quantity))
  {
    FirstFindsBook(items, book.id);
    var r := AddedTo(items, book, quantity);
    if HasBook(items, book.id) {
      assert forall i :: 0 <= i < |r| ==> r[i].book == items[i].book;
    } else {
      forall i, j | 0 <= i < j < |r| ensures ItemBookId(r[i]) != ItemBookId(r[j]) {
        if j == |items| {
          assert r[i] == items[i];
        } else {
          assert r[i] == items[i] && r[j] == items[j];
        }
      }
    }
  }

  /** Removing drops exactly the entries of that book and keeps the others
      in their order; for a book not in the cart it changes nothing. */
  lemma RemoveDropsExactlyTheBook(items: seq<CartItem>, id: int)
    ensures !HasBook(RemovedFrom(items, id), id)
    ensures forall x :: x in RemovedFrom(items, id) <==> x in items && x.book.id != id
    ensures !HasBook(items, id) ==> RemovedFrom(items, id) == items
  {
    var r := RemovedFrom(items, id);
    forall x ensures x in r <==> x in items && x.book.id != id {
      FilterMembership(items, OtherBook(id), x);
    }
    if !HasBook(items, id) {
      FilterKeepsAll(items, OtherBook(id));
    }
  }

  /** With one entry per book, removing the book held at index k is deleting index k. */
  lemma RemoveIsDeleteAt(items: seq<CartItem>, id: int, k: nat)
    requires OneEntryPerBook(items)
    requires k < |items| && items[k].book.id == id
    ensures RemovedFrom(items, id) == items[..k] + items[k + 1..]
  {
    forall i | 0 <= i < |items| && i != k ensures OtherBook(id)(items[i]) {
      if i < k {
        assert ItemBookId(items[i]) != ItemBookId(items[k]);
      } else {
        assert ItemBookId(items[k]) != ItemBookId(items[i]);
      }
    }
    FilterDropsOne(items, OtherBook(id), k);
  }

  lemma RemoveKeepsOneEntryPerBook(items: seq<CartItem>, id: int)
    requires OneEntryPerBook(items)
    ensures OneEntryPerBook(RemovedFrom(items, id))
  {
    if HasBook(items, id) {
      var k :| 0 <= k < |items| && items[k].book.id == id;
      RemoveIsDeleteAt(items, id, k);
      var r := items[..k] + items[k + 1..];
      forall i, j | 0 <= i < j < |r| ensures ItemBookId(r[i]) != ItemBookId(r[j]) {
        var i' := if i < k then i else i + 1;
        var j' := if j < k then j else j + 1;
        assert r[i] == items[i'] && r[j] == items[j'];
      }
    } else {
      RemoveDropsExactlyTheBook(items, id);
    }
  }

  /** A positive quantity is set on the entries of that book only; the length,
      the order and every book are kept, and a book not in the cart changes nothing. */
  lemma SetQuantityKeepsShape(items: seq<CartItem>, id: int, quantity: int)
    ensures var r := QuantitySet(items, id, quantity);
      |r| == |items| &&
      (forall i :: 0 <= i < |items| ==>
        r[i].book == items[i].book &&
        r[i].quantity == (if items[i].book.id == id then quantity else items[i].quantity)) &&
      (!HasBook(items, id) ==> r == items) &&
      (OneEntryPerBook(items) ==> OneEntryPerBook(r))
  {
    var r := QuantitySet(items, id, quantity);
    if !HasBook(items, id) {
      MapSeqNoChange(items, SetQuantity(id, quantity));
    }
    assert forall i :: 0 <= i < |r| ==> ItemBookId(r[i]) == ItemBookId(items[i]);
  }

  // ---------------------------------------------------------------------
  // Totals
  // ---------------------------------------------------------------------

  /** An empty cart has a total and an item count of 0. */
  lemma EmptyCartTotals()
    ensures CartTotal([]) == 0 && CartItemCount([]) == 0
  {
  }

  /** With one entry per book, adding to a book held at index k bumps that entry only. */
  lemma AddExistingIsPointUpdate(items: seq<CartItem>, book: Book, quantity: int, k: nat)
    requires OneEntryPerBook(items)
    requires k < |items| && items[k].book.id == book.id
    ensures AddedTo(items, book, quantity) == items[k := items[k].(quantity := items[k].quantity + quantity)]
  {
    FirstFindsBook(items, book.id);
    forall i | 0 <= i < |items| && i != k ensures AddQuantity(book.id, quantity)(items[i]) == items[i] {
      if i < k {
        assert ItemBookId(items[i]) != ItemBookId(items[k]);
      } else {
        assert ItemBookId(items[k]) != ItemBookId(items[i]);
      }
    }
    MapSeqAtOne(items, AddQuantity(book.id, quantity), k);
  }

  /** Adding `quantity` of a book the cart holds at index k raises the item
      count by `quantity` and the total by `quantity` times the price recorded
      in that entry, which is the price of the book when it was first added. */
  lemma AddExistingRaisesTotals(items: seq<CartItem>, book: Book, quantity: int, k: nat)
    requires OneEntryPerBook(items)
    requires k < |items| && items[k].book.id == book.id
    ensures CartItemCount(AddedTo(items, book, quantity)) == CartItemCount(items) + quantity
    ensures CartTotal(AddedTo(items, book, quantity)) == CartTotal(items) + items[k].book.price * quantity
  {
    AddExistingIsPointUpdate(items, book, quantity, k);
    BumpTotals(items, k, quantity);
  }

  /** Adding `quantity` to the entry at index k raises the item count by
      `quantity` and the total by that entry's price times `quantity`. */
  lemma BumpTotals(items: seq<CartItem>, k: nat, quantity: int)
    requires k < |items|
    ensures var x := items[k].(quantity := items[k].quantity + quantity);
      CartItemCount(items[k := x]) == CartItemCount(items) + quantity
      && CartTotal(items[k := x]) == CartTotal(items) + items[k].book.price * quantity
  {
    var x := items[k].(quantity := items[k].quantity + quantity);
    SumOfUpdate(items, k, x, Quantity);
    SumOfUpdate(items, k, x, LineTotal);
    LineTotalGrows(items[k], quantity);
  }

  lemma LineTotalGrows(i: CartItem, quantity: int)
    ensures LineTotal(i.(quantity := i.quantity + quantity)) == LineTotal(i) + i.book.price * quantity
  {
    var p := i.book.price;
    assert p * (i.quantity + quantity) == p * i.quantity + p * quantity;
  }

  /** Adding `quantity` of a book not in the cart raises the item count by
      `quantity` and the total by the book's price times `quantity`. */
  lemma AddNewRaisesTotals(items: seq<CartItem>, book: Book, quantity: int)
    requires !HasBook(items, book.id)
    ensures CartItemCount(AddedTo(items, book, quantity)) == CartItemCount(items) + quantity
    ensures CartTotal(AddedTo(items, book, quantity)) == CartTotal(items) + book.price * quantity
  {
    AddNewAppends(items, book, quantity);
    SumOfAppend(items, [CartItem(book, quantity)], Quantity);
    SumOfAppend(items, [CartItem(book, quantity)], LineTotal);
  }

  lemma AddRaisesTotals(items: seq<CartItem>, book: Book, quantity: int)
    requires OneEntryPerBook(items)
    ensures CartItemCount(AddedTo(items, book, quantity)) == CartItemCount(items) + quantity
  {
    if HasBook(items, book.id) {
      var k :| 0 <= k < |items| && items[k].book.id == book.id;
      AddExistingRaisesTotals(items, book, quantity, k);
    } else {
      AddNewRaisesTotals(items, book, quantity);
    }
  }

  /** Removing a book held at index k lowers the total by that entry's line
      total and the item count by its quantity. */
  lemma RemoveLowersTotals(items: seq<CartItem>, id: int, k: nat)
    requires OneEntryPerBook(items)
    requires k < |items| && items[k].book.id == id
    ensures CartTotal(RemovedFrom(items, id)) == CartTotal(items) - items[k].book.price * items[k].quantity
    ensures CartItemCount(RemovedFrom(items, id)) == CartItemCount(items) - items[k].quantity
  {
    RemoveIsDeleteAt(items, id, k);
    assert items == items[..k] + [items[k]] + items[k + 1..];
    SumOfAppend(items[..k] + [items[k]], items[k + 1..], LineTotal);
    SumOfAppend(items[..k], [items[k]], LineTotal);
    SumOfAppend(items[..k], items[k + 1..], LineTotal);
    SumOfAppend(items[..k] + [items[k]], items[k + 1..], Quantity);
    SumOfAppend(items[..k], [items[k]], Quantity);
    SumOfAppend(items[..k], items[k + 1..], Quantity);
    assert [items[k]][..0] == [];
  }
}
