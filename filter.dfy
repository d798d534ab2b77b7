/** The click handler that initProductFilters attaches to every `.filter-btn`: the clicked button becomes
    the only active one, and each `.product-card` is shown or hidden by its category. */
module ProductFilter {
  import opened Wrappers

  /** `data-category` of a button or card; None when the attribute is absent (dataset gives undefined). */
  type Category = Option<string>

  datatype FilterButton = FilterButton(category: Category, active: bool)

  /** The inline `style.display` of a card: unset until some click writes 'block' or 'none'. */
  datatype Display = Unset | Block | Hidden

  datatype ProductCard = ProductCard(category: Category, display: Display)

  const All: string := "all"

  /** `category === 'all' || card.dataset.category === category`; two absent categories compare equal,
      as undefined === undefined does. */
  predicate Selects(selected: Category, card: Category)
  {
    selected == Some(All) || card == selected
  }

  /** The buttons after a click on button `clicked`. */
  function Activated(buttons: seq<FilterButton>, clicked: nat): (r: seq<FilterButton>)
    ensures |r| == |buttons|
  {
    seq(|buttons|, i requires 0 <= i < |buttons| => buttons[i].(active := i == clicked))
  }

  /** The cards after a click on a button whose category is `selected`. */
  function Filtered(cards: seq<ProductCard>, selected: Category): (r: seq<ProductCard>)
    ensures |r| == |cards|
  {
    seq(|cards|, i requires 0 <= i < |cards| =>
      cards[i].(display := if Selects(selected, cards[i].category) then Block else Hidden))
  }

  /** The handler for a click on `buttons[clicked]`. */
  method ClickFilter(buttons: array<FilterButton>, cards: array<ProductCard>, clicked: nat)
    requires clicked < buttons.Length
    modifies buttons, cards
    ensures buttons[..] == Activated(old(buttons[..]), clicked)
    ensures cards[..] == Filtered(old(cards[..]), old(buttons[clicked].category))
  {
    for i := 0 to buttons.Length
      modifies buttons
      invariant forall k :: 0 <= k < i ==> buttons[k] == old(buttons[k]).(active := false)
      invariant forall k :: i <= k < buttons.Length ==> buttons[k] == old(buttons[k])
    {
      buttons[i] := buttons[i].(active := false);
    }
    buttons[clicked] := buttons[clicked].(active := true);

    var category := buttons[clicked].category;
    for i := 0 to cards.Length
      modifies cards
      invariant forall k :: 0 <= k < i ==>
        cards[k] == old(cards[k]).(display := if Selects(category, old(cards[k]).category) then Block else Hidden)
      invariant forall k :: i <= k < cards.Length ==> cards[k] == old(cards[k])
    {
      if category == Some(All) || cards[i].category == category {
        cards[i] := cards[i].(display := Block);
      } else {
        cards[i] := cards[i].(display := Hidden);
      }
    }
  }

  /** Exactly the clicked button is active afterwards, and no button's category changes. */
  lemma ExactlyClickedActive(buttons: seq<FilterButton>, clicked: nat)
    requires clicked < |buttons|
    ensures forall i :: 0 <= i < |buttons| ==>
      (Activated(buttons, clicked)[i].active <==> i == clicked) &&
      Activated(buttons, clicked)[i].category == buttons[i].category
    ensures Activated(Activated(buttons, clicked), clicked) == Activated(buttons, clicked)
  {
  }

  /** A card is shown exactly when the selection is "all" or names its category, and hidden otherwise;
      no card's category changes. */
  lemma ShownIffSelected(cards: seq<ProductCard>, selected: Category)
    ensures forall i :: 0 <= i < |cards| ==>
      (Filtered(cards, selected)[i].display == Block <==> selected == Some(All) || cards[i].category == selected) &&
      (Filtered(cards, selected)[i].display == Hidden <==> !(selected == Some(All) || cards[i].category == selected)) &&
      Filtered(cards, selected)[i].category == cards[i].category
  {
  }

  /** The outcome does not depend on what was displayed before: two card lists with the same categories
      end up identical, so repeating a click changes nothing. */
  lemma {:induction false} FilterForgetsPriorDisplay(a: seq<ProductCard>, b: seq<ProductCard>, selected: Category)
    requires |a| == |b|
    requires forall i :: 0 <= i < |a| ==> a[i].category == b[i].category
    ensures Filtered(a, selected) == Filtered(b, selected)
    ensures Filtered(Filtered(a, selected), selected) == Filtered(a, selected)
  {
    var fa := Filtered(a, selected);
    assert forall i :: 0 <= i < |a| ==> fa[i].category == a[i].category;
  }

  /** Selecting "electronics" over cards tagged electronics, books, electronics shows the first and the
      third; selecting "all" then shows all three. */
  lemma FilterExample()
    ensures var cards := [ProductCard(Some("electronics"), Unset), ProductCard(Some("books"), Block),
                          ProductCard(Some("electronics"), Hidden)];
      var e := Filtered(cards, Some("electronics"));
      e[0].display == Block && e[1].display == Hidden && e[2].display == Block &&
      forall i :: 0 <= i < 3 ==> Filtered(e, Some(All))[i].display == Block
  {
    assert "books" != "electronics";
  }
}
