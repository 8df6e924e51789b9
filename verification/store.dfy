/** The style store page: a fixed catalogue of badge styles, the label each
    price is shown with, the visibility of the buy button, and the action
    the button performs depending on whether a session is present. The
    sign-in call and the router push are returned as `Action` values. */
module Store {
  import opened Wrappers
  import Text
  import RequestDeriver

  /** A style's price is either the marker `"free"` or a number of dollars. */
  datatype Price = Free | Dollars(amount: nat)

  datatype StyleOption = StyleOption(id: string, name: string, description: string, preview: string, price: Price)

  /** The query of every catalogue preview up to its `styleType` value. The
      `url` value is written unencoded here, unlike the configurator's. */
  const PreviewQueryPrefix := "url=https://github.com" + "&label=Views&color=0d6efd&fontSize=12" + "&styleType="

  /** The preview image of a style: the configurator's preview endpoint,
      asked for the style by its id. */
  function PreviewUrl(styleId: string): string {
    RequestDeriver.Origin + RequestDeriver.PreviewPath + "?" + (PreviewQueryPrefix + styleId)
  }

  /** Every preview is on the configurator's preview endpoint on the same
      host, with a query that is the same for every style up to its
      `styleType` value, which is the style's id. */
  lemma PreviewUrlSplits(styleId: string)
    ensures RequestDeriver.PathOf(PreviewUrl(styleId)) == RequestDeriver.Origin + RequestDeriver.Endpoint(true)
    ensures RequestDeriver.QueryOf(PreviewUrl(styleId)) == PreviewQueryPrefix + styleId
  {
    RequestDeriver.EndpointsHaveNoQuestionMark(true);
    RequestDeriver.SplitUrl(RequestDeriver.Origin + RequestDeriver.PreviewPath, PreviewQueryPrefix + styleId);
  }

  /** The catalogue: `default`, `maple` and `rabbit`, in that order, with
      distinct ids; only `default` is free and the others cost three dollars;
      each preview shows the style named by the card's id. */
  function Catalogue(): (styles: seq<StyleOption>)
    ensures |styles| == 3
    ensures styles[0].id == "default" && styles[1].id == "maple" && styles[2].id == "rabbit"
    ensures forall i, j :: 0 <= i < j < |styles| ==> styles[i].id != styles[j].id
    ensures forall i :: 0 <= i < |styles| ==> (styles[i].price.Free? <==> styles[i].id == "default")
    ensures forall i :: 0 <= i < |styles| && !styles[i].price.Free? ==> styles[i].price == Dollars(3)
    ensures forall i :: 0 <= i < |styles| ==> styles[i].preview == PreviewUrl(styles[i].id)
  {
    assert "default" != "maple" by { assert "default"[0] != "maple"[0]; }
    assert "default" != "rabbit" by { assert "default"[0] != "rabbit"[0]; }
    assert "maple" != "rabbit" by { assert "maple"[0] != "rabbit"[0]; }
    [
      StyleOption("default", "Default", "Simple and clean basic style", PreviewUrl("default"), Free),
      StyleOption("maple", "Maple", "Warm maple-inspired style", PreviewUrl("maple"), Dollars(3)),
      StyleOption("rabbit", "Rabbit", "Cute rabbit-themed style", PreviewUrl("rabbit"), Dollars(3))
    ]
  }

  /** What the page asks of the outside world. */
  datatype Action = SignIn(provider: string) | Navigate(path: string)

  const CheckoutPrefix := "/checkout?styleId="

  /** The price shown on a card: `Free`, or a dollar sign and the amount. */
  function PriceLabel(p: Price): (s: string)
    ensures p.Free? <==> s == "Free"
    ensures p.Dollars? ==> |s| >= 2 && s[0] == '$' && Text.IsNumeral(s[1..])
    ensures p.Dollars? ==> Text.ParseNat(s[1..]) == Some(p.amount)
  {
    match p
    case Free => "Free"
    case Dollars(n) =>
      assert ("$" + Text.NatToDecimal(n))[1..] == Text.NatToDecimal(n);
      "$" + Text.NatToDecimal(n)
  }

  /** Different prices are shown differently. */
  lemma PriceLabelInjective(p: Price, q: Price)
    ensures PriceLabel(p) == PriceLabel(q) <==> p == q
  {
    if PriceLabel(p) == PriceLabel(q) && p.Dollars? && q.Dollars? {
      assert Some(p.amount) == Some(q.amount);
    }
  }

  /** Without a session the visitor is sent to GitHub sign-in and nowhere
      else; with one, to the checkout page of the style, the id inserted
      without encoding. */
  function HandleBuyBadge(signedIn: bool, styleId: string): (a: Action)
    ensures !signedIn <==> a == SignIn("github")
    ensures signedIn <==> a.Navigate?
    ensures a.Navigate? ==> |a.path| == |CheckoutPrefix| + |styleId|
    ensures a.Navigate? ==> a.path[..|CheckoutPrefix|] == CheckoutPrefix && a.path[|CheckoutPrefix|..] == styleId
  {
    if !signedIn then SignIn("github")
    else
      var path := CheckoutPrefix + styleId;
      assert path[..|CheckoutPrefix|] == CheckoutPrefix && path[|CheckoutPrefix|..] == styleId;
      Navigate(path)
  }

  /** Distinct styles lead to distinct checkout pages. */
  lemma CheckoutDistinguishesStyles(x: string, y: string)
    ensures HandleBuyBadge(true, x) == HandleBuyBadge(true, y) <==> x == y
  {
  }

  /** The action a card's button offers, or `None` when the card shows no
      button because the style is free. */
  function BuyButton(style: StyleOption, signedIn: bool): (r: Option<Action>)
    ensures r.None? <==> style.price.Free?
    ensures r.Some? ==> r.value == HandleBuyBadge(signedIn, style.id)
  {
    if style.price.Free? then None else Some(HandleBuyBadge(signedIn, style.id))
  }

  /** Only the paid cards show a buy button. */
  lemma BuyButtonsOnPaidCards(signedIn: bool)
    ensures forall i :: 0 <= i < |Catalogue()| ==> (BuyButton(Catalogue()[i], signedIn).Some? <==> i != 0)
  {
  }

  /** A signed-in visitor's button on a paid card goes to that card's
      checkout page, a signed-out visitor's to sign-in; the free card has no
      route to checkout. */
  lemma PaidCardsCheckOut()
    ensures BuyButton(Catalogue()[0], true).None? && BuyButton(Catalogue()[0], false).None?
    ensures BuyButton(Catalogue()[1], true) == Some(Navigate(CheckoutPrefix + "maple"))
    ensures BuyButton(Catalogue()[2], true) == Some(Navigate(CheckoutPrefix + "rabbit"))
    ensures forall i :: 1 <= i < |Catalogue()| ==> BuyButton(Catalogue()[i], false) == Some(SignIn("github"))
  {
  }
}
