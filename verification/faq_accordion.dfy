/**
 The FAQ accordion's click handler: at most one answer is open.

 The accordion is a sequence of items. Each item has an `open` class flag and
 the `aria-expanded` state of its question button, read as true exactly when
 the attribute is the string "true" (the handler itself only ever writes
 "true" or "false"). A click either lands on the question of one item or
 misses every question.
 */
module FaqAccordion {

  datatype Item = Item(open: bool, expanded: bool)

  /** Where a click inside the accordion landed. */
  datatype Click = Elsewhere | OnQuestion(index: nat)

  /** A click on a question names an item of the accordion. */
  predicate ValidClick(items: seq<Item>, c: Click)
  {
    c.OnQuestion? ==> c.index < |items|
  }

  predicate AtMostOneOpen(items: seq<Item>)
  {
    forall j, k :: 0 <= j < |items| && 0 <= k < |items| && items[j].open && items[k].open ==> j == k
  }

  /** Every item's class agrees with its question's `aria-expanded`. */
  predicate Synced(items: seq<Item>)
  {
    forall j :: 0 <= j < |items| ==> items[j].open == items[j].expanded
  }

  /**
   The handler's effect, item by item: the clicked item is opened or closed to
   the negation of its question's previous `aria-expanded`; every other item
   that was open is closed and its question collapsed; an item that was not
   open is left alone, even if its question still says expanded.
   */
  function HandleClick(items: seq<Item>, c: Click): (r: seq<Item>)
    requires ValidClick(items, c)
    ensures |r| == |items|
    ensures c.Elsewhere? ==> r == items
    ensures c.OnQuestion? ==> AtMostOneOpen(r)
    ensures c.OnQuestion? ==> r[c.index].open == r[c.index].expanded == !items[c.index].expanded
    ensures forall j :: 0 <= j < |items| && c.OnQuestion? && j != c.index ==>
              !r[j].open && (items[j].open ==> !r[j].expanded)
    ensures forall j :: 0 <= j < |items| && c.OnQuestion? && j != c.index && !items[j].open ==>
              r[j] == items[j]
  {
    match c
    case Elsewhere => items
    case OnQuestion(i) =>
      seq(|items|, j requires 0 <= j < |items| =>
        if j == i then Item(!items[i].expanded, !items[i].expanded)
        else if items[j].open then items[j].(open := false, expanded := false)
        else items[j])
  }

  /**
   The handler as the page runs it: the open items are collected first and
   each one other than the clicked item is closed in turn, then the clicked
   item is toggled.
   */
  method Dispatch(items: seq<Item>, c: Click) returns (r: seq<Item>)
    requires ValidClick(items, c)
    ensures r == HandleClick(items, c)
  {
    if c.Elsewhere? {
      return items;
    }
    var i := c.index;
    var expanded := items[i].expanded;
    r := items;
    var j := 0;
    while j < |items|
      invariant 0 <= j <= |items|
      invariant |r| == |items|
      invariant forall k :: 0 <= k < j ==>
        r[k] == (if k != i && items[k].open then items[k].(open := false, expanded := false) else items[k])
      invariant forall k :: j <= k < |items| ==> r[k] == items[k]
    {
      if items[j].open && j != i {
        r := r[j := r[j].(open := false)];
        r := r[j := r[j].(expanded := false)];
      }
      j := j + 1;
    }
    r := r[i := r[i].(open := !expanded)];
    r := r[i := r[i].(expanded := !expanded)];
  }

  /** A click that lands on a question never leaves the class and `aria-expanded` out of step. */
  lemma ClickKeepsSynced(items: seq<Item>, c: Click)
    requires ValidClick(items, c) && Synced(items)
    ensures Synced(HandleClick(items, c))
  {
  }

  /**
   On an accordion in step, clicking the open question closes everything, and
   clicking a closed one leaves exactly that item open.
   */
  lemma ClickOpensOrClosesOne(items: seq<Item>, i: nat)
    requires i < |items| && Synced(items)
    ensures items[i].open ==>
      forall j :: 0 <= j < |items| ==> !HandleClick(items, OnQuestion(i))[j].open
    ensures !items[i].open ==>
      forall j :: 0 <= j < |items| ==> (HandleClick(items, OnQuestion(i))[j].open <==> j == i)
  {
  }

  /**
   Clicking the same question twice restores the accordion when that item was
   the only one that could be open.
   */
  lemma ClickTwiceRestores(items: seq<Item>, i: nat)
    requires i < |items| && Synced(items)
    requires forall j :: 0 <= j < |items| && j != i ==> !items[j].open
    ensures HandleClick(HandleClick(items, OnQuestion(i)), OnQuestion(i)) == items
  {
  }

  /**
   A click on one question leaves every other closed item's `aria-expanded` as
   it was: only items carrying the open class are reset. So a closed item whose
   question still says expanded keeps the accordion out of step.
   */
  lemma StaleExpandedSurvives(items: seq<Item>, i: nat, j: nat)
    requires i < |items| && j < |items| && j != i && !items[j].open
    ensures HandleClick(items, OnQuestion(i))[j].expanded == items[j].expanded
    ensures items[j].expanded ==> !Synced(HandleClick(items, OnQuestion(i)))
  {
  }
}
