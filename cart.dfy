/**
 * The shopping cart of the product page: the `carrinho` state, the handlers
 * `adicionarAoCarrinho` and `removerDoCarrinho`, and the `total` shown under it.
 */
module ShoppingCart {
  import opened Products
  import opened Seqs

  /** Whether some entry of the cart carries the identifier `idUnico`. */
  predicate HasId(carrinho: seq<Product>, idUnico: string) {
    exists i :: 0 <= i < |carrinho| && carrinho[i].idUnico == Some(idUnico)
  }

  /** Every entry carries an identifier and no two entries share one. */
  ghost predicate UniqueIds(carrinho: seq<Product>) {
    && (forall i :: 0 <= i < |carrinho| ==> carrinho[i].idUnico.Some?)
    && (forall i, j :: 0 <= i < j < |carrinho| ==> carrinho[i].idUnico != carrinho[j].idUnico)
  }

  /** `[...prev, { ...produto, idUnico }]`: the cart after adding `produto` under a fresh identifier. */
  function Added(carrinho: seq<Product>, produto: Product, idUnico: string): seq<Product> {
    carrinho + [produto.(idUnico := Some(idUnico))]
  }

  /** The test `item.idUnico !== idUnico`; an entry with no identifier always passes it. */
  function Keeps(idUnico: string): Product -> bool {
    (item: Product) => item.idUnico != Some(idUnico)
  }

  /** The complement of `Keeps`: the entries removing `idUnico` drops. */
  function Carries(idUnico: string): Product -> bool {
    (item: Product) => item.idUnico == Some(idUnico)
  }

  /** `prev.filter(item => item.idUnico !== idUnico)`: the cart after removing `idUnico`. */
  function Removed(carrinho: seq<Product>, idUnico: string): seq<Product> {
    Filter(carrinho, Keeps(idUnico))
  }

  /** `carrinho.reduce((acc, prod) => acc + prod.price, 0)`: the sum of the entries' prices. */
  function Total(carrinho: seq<Product>): int {
    if carrinho == [] then 0 else Total(carrinho[..|carrinho| - 1]) + carrinho[|carrinho| - 1].price
  }

  /**
   * Adding grows the cart by one entry at the end, leaves the earlier entries as they
   * were, and the new entry is the product with every field copied and `idUnico` set.
   */
  lemma AddedShape(carrinho: seq<Product>, produto: Product, idUnico: string)
    ensures var r := Added(carrinho, produto, idUnico);
      && |r| == |carrinho| + 1
      && r[..|carrinho|] == carrinho
      && var e := r[|carrinho|];
         e.id == produto.id && e.title == produto.title && e.description == produto.description
         && e.price == produto.price && e.image == produto.image && e.category == produto.category
         && e.idUnico == Some(idUnico)
  {
  }

  /** A fresh identifier keeps the identifiers unique, and the new entry is found under it. */
  lemma AddedKeepsUnique(carrinho: seq<Product>, produto: Product, idUnico: string)
    requires !HasId(carrinho, idUnico)
    ensures UniqueIds(carrinho) ==> UniqueIds(Added(carrinho, produto, idUnico))
    ensures HasId(Added(carrinho, produto, idUnico), idUnico)
  {
    var r := Added(carrinho, produto, idUnico);
    assert r[|carrinho|].idUnico == Some(idUnico);
  }

  /**
   * Removing drops every entry carrying `idUnico` and keeps every other entry as often
   * as before; afterwards no entry carries `idUnico`.
   */
  lemma RemovedContents(carrinho: seq<Product>, idUnico: string)
    ensures forall e :: multiset(Removed(carrinho, idUnico))[e]
                     == if e.idUnico == Some(idUnico) then 0 else multiset(carrinho)[e]
    ensures !HasId(Removed(carrinho, idUnico), idUnico)
  {
    forall e ensures multiset(Removed(carrinho, idUnico))[e]
                  == if e.idUnico == Some(idUnico) then 0 else multiset(carrinho)[e] {
      FilterCount(carrinho, Keeps(idUnico), e);
    }
    var r := Removed(carrinho, idUnico);
    forall i | 0 <= i < |r| ensures r[i].idUnico != Some(idUnico) {
      assert r[i] in r;
    }
  }

  /** Removing keeps the remaining entries in their relative order: it works piece by piece. */
  lemma RemovedKeepsOrder(front: seq<Product>, back: seq<Product>, idUnico: string)
    ensures Removed(front + back, idUnico) == Removed(front, idUnico) + Removed(back, idUnico)
  {
    FilterConcat(front, back, Keeps(idUnico));
  }

  /** Removing leaves the cart unchanged exactly when no entry carries `idUnico`. */
  lemma RemovedUnchanged(carrinho: seq<Product>, idUnico: string)
    ensures Removed(carrinho, idUnico) == carrinho <==> !HasId(carrinho, idUnico)
  {
    FilterIdentity(carrinho, Keeps(idUnico));
    if HasId(carrinho, idUnico) {
      var i :| 0 <= i < |carrinho| && carrinho[i].idUnico == Some(idUnico);
      assert !Keeps(idUnico)(carrinho[i]);
    } else {
      assert forall e :: e in carrinho ==> Keeps(idUnico)(e);
    }
  }

  /** With unique identifiers, removing drops exactly the one entry that carries `idUnico`. */
  lemma RemovedExactlyOne(carrinho: seq<Product>, idUnico: string, k: nat)
    requires UniqueIds(carrinho)
    requires k < |carrinho| && carrinho[k].idUnico == Some(idUnico)
    ensures Removed(carrinho, idUnico) == carrinho[..k] + carrinho[k + 1..]
    ensures |Removed(carrinho, idUnico)| == |carrinho| - 1
  {
    var front, back := carrinho[..k], carrinho[k + 1..];
    SplitAt(carrinho, k);
    RemovedKeepsOrder(front + [carrinho[k]], back, idUnico);
    FilterSnoc(front, carrinho[k], Keeps(idUnico));
    assert !HasId(front, idUnico) by {
      forall i | 0 <= i < |front| ensures front[i].idUnico != Some(idUnico) {
        assert front[i] == carrinho[i];
      }
    }
    assert !HasId(back, idUnico) by {
      forall i | 0 <= i < |back| ensures back[i].idUnico != Some(idUnico) {
        assert back[i] == carrinho[k + 1 + i];
      }
    }
    RemovedUnchanged(front, idUnico);
    RemovedUnchanged(back, idUnico);
  }

  /** A cart extended by one entry has unique identifiers exactly when the new one is new. */
  lemma UniqueSnoc(carrinho: seq<Product>, e: Product)
    ensures UniqueIds(carrinho + [e]) <==>
      UniqueIds(carrinho) && e.idUnico.Some? && forall x :: x in carrinho ==> x.idUnico != e.idUnico
  {
    var c := carrinho + [e];
    if UniqueIds(c) {
      forall x | x in carrinho ensures x.idUnico != e.idUnico {
        var k :| 0 <= k < |carrinho| && carrinho[k] == x;
        assert c[k] == x && c[|carrinho|] == e;
      }
      forall i | 0 <= i < |carrinho| ensures carrinho[i].idUnico.Some? {
        assert c[i] == carrinho[i];
      }
      forall i, j | 0 <= i < j < |carrinho| ensures carrinho[i].idUnico != carrinho[j].idUnico {
        assert c[i] == carrinho[i] && c[j] == carrinho[j];
      }
      assert c[|carrinho|] == e;
    }
    if UniqueIds(carrinho) && e.idUnico.Some? && forall x :: x in carrinho ==> x.idUnico != e.idUnico {
      forall i, j | 0 <= i < j < |c| ensures c[i].idUnico != c[j].idUnico {
        if j == |carrinho| {
          assert c[j] == e && c[i] == carrinho[i] && carrinho[i] in carrinho;
        } else {
          assert c[i] == carrinho[i] && c[j] == carrinho[j];
        }
      }
      forall i | 0 <= i < |c| ensures c[i].idUnico.Some? {
        if i < |carrinho| {
          assert c[i] == carrinho[i];
        } else {
          assert c[i] == e;
        }
      }
    }
  }

  /** Removing keeps the identifiers unique. */
  lemma {:induction false} RemovedKeepsUnique(carrinho: seq<Product>, idUnico: string)
    requires UniqueIds(carrinho)
    ensures UniqueIds(Removed(carrinho, idUnico))
  {
    if carrinho != [] {
      var rest, last := carrinho[..|carrinho| - 1], carrinho[|carrinho| - 1];
      SplitLast(carrinho);
      UniqueSnoc(rest, last);
      RemovedKeepsUnique(rest, idUnico);
      FilterSnoc(rest, last, Keeps(idUnico));
      var r := Removed(rest, idUnico);
      if Keeps(idUnico)(last) {
        forall e | e in r ensures e in rest {
          FilterMember(rest, Keeps(idUnico), e);
        }
        UniqueSnoc(r, last);
      }
    }
  }

  /** Whenever some entry carries `idUnico`, removing it leaves a strictly shorter cart. */
  lemma RemovedShrinks(carrinho: seq<Product>, idUnico: string)
    ensures HasId(carrinho, idUnico) ==> |Removed(carrinho, idUnico)| < |carrinho|
  {
    if HasId(carrinho, idUnico) {
      var i :| 0 <= i < |carrinho| && carrinho[i].idUnico == Some(idUnico);
      FilterDrops(carrinho, Keeps(idUnico), carrinho[i]);
    }
  }

  /** Removing the identifier just added returns the cart to what it was before. */
  lemma RemoveUndoesAdd(carrinho: seq<Product>, produto: Product, idUnico: string)
    requires !HasId(carrinho, idUnico)
    ensures Removed(Added(carrinho, produto, idUnico), idUnico) == carrinho
  {
    FilterSnoc(carrinho, produto.(idUnico := Some(idUnico)), Keeps(idUnico));
    RemovedUnchanged(carrinho, idUnico);
  }

  /** The total of a concatenation is the sum of the totals. */
  lemma {:induction false} TotalConcat(front: seq<Product>, back: seq<Product>)
    ensures Total(front + back) == Total(front) + Total(back)
    decreases |back|
  {
    if back == [] {
      assert front + back == front;
    } else {
      var back' := back[..|back| - 1];
      assert (front + back)[..|front + back| - 1] == front + back';
      TotalConcat(front, back');
    }
  }

  /** The empty cart costs nothing, and adding a product raises the total by its price. */
  lemma TotalAdded(carrinho: seq<Product>, produto: Product, idUnico: string)
    ensures Total([]) == 0
    ensures Total(Added(carrinho, produto, idUnico)) == Total(carrinho) + produto.price
  {
    assert Added(carrinho, produto, idUnico)[..|carrinho|] == carrinho;
  }

  /** The total of a cart with one entry singled out. */
  lemma TotalAround(front: seq<Product>, e: Product, back: seq<Product>)
    ensures Total(front + [e] + back) == Total(front) + e.price + Total(back)
  {
    TotalConcat(front + [e], back);
    assert (front + [e])[..|front|] == front;
  }

  /** The total of a cart extended by one entry. */
  lemma TotalSnoc(carrinho: seq<Product>, e: Product)
    ensures Total(carrinho + [e]) == Total(carrinho) + e.price
  {
    assert (carrinho + [e])[..|carrinho|] == carrinho;
  }

  /**
   * For any cart, unique identifiers or not, removing `idUnico` lowers the total by
   * exactly the prices of the entries that carry it.
   */
  lemma {:induction false} TotalPartition(carrinho: seq<Product>, idUnico: string)
    ensures Total(carrinho) == Total(Removed(carrinho, idUnico)) + Total(Filter(carrinho, Carries(idUnico)))
  {
    if carrinho != [] {
      var rest, last := carrinho[..|carrinho| - 1], carrinho[|carrinho| - 1];
      SplitLast(carrinho);
      TotalPartition(rest, idUnico);
      FilterSnoc(rest, last, Keeps(idUnico));
      FilterSnoc(rest, last, Carries(idUnico));
      TotalSnoc(rest, last);
      if Keeps(idUnico)(last) {
        TotalSnoc(Removed(rest, idUnico), last);
      } else {
        TotalSnoc(Filter(rest, Carries(idUnico)), last);
      }
    }
  }

  /** With unique identifiers, removing an entry lowers the total by exactly its price. */
  lemma TotalRemoved(carrinho: seq<Product>, idUnico: string, k: nat)
    requires UniqueIds(carrinho)
    requires k < |carrinho| && carrinho[k].idUnico == Some(idUnico)
    ensures Total(Removed(carrinho, idUnico)) == Total(carrinho) - carrinho[k].price
  {
    RemovedExactlyOne(carrinho, idUnico, k);
    SplitAt(carrinho, k);
    TotalAround(carrinho[..k], carrinho[k], carrinho[k + 1..]);
    TotalConcat(carrinho[..k], carrinho[k + 1..]);
  }

  /** Adding one product twice gives two entries for the same product, told apart by their identifiers. */
  lemma AddTwiceExample(produto: Product, first: string, second: string)
    requires first != second
    ensures var c := Added(Added([], produto, first), produto, second);
      && |c| == 2 && c[0].id == c[1].id == produto.id
      && c[0].idUnico != c[1].idUnico && UniqueIds(c)
      && Total(c) == 2 * produto.price
  {
    var c1 := Added([], produto, first);
    TotalAdded([], produto, first);
    TotalAdded(c1, produto, second);
  }

  /** The cart state of the page; `carrinho` is replaced by each handler. */
  class Cart {
    var carrinho: seq<Product>

    /** Every entry the handlers put in the cart has its own identifier. */
    ghost predicate Valid()
      reads this
    {
      UniqueIds(carrinho)
    }

    /** `useState<Produto[]>([])`: the cart starts empty. */
    constructor ()
      ensures Valid() && carrinho == []
    {
      carrinho := [];
    }

    /**
     * `adicionarAoCarrinho(produto)`; `novoId` stands for `crypto.randomUUID()` and, as a
     * random UUID, is not the identifier of any entry already in the cart.
     */
    method Add(produto: Product, novoId: string)
      requires !HasId(carrinho, novoId)
      modifies this
      ensures carrinho == Added(old(carrinho), produto, novoId)
      ensures Total(carrinho) == Total(old(carrinho)) + produto.price
      ensures old(Valid()) ==> Valid()
    {
      AddedKeepsUnique(carrinho, produto, novoId);
      TotalAdded(carrinho, produto, novoId);
      var produtoComId := produto.(idUnico := Some(novoId));
      carrinho := carrinho + [produtoComId];
    }

    /**
     * `removerDoCarrinho(idUnico)`. Any cart is accepted, including one restored from
     * storage; where the identifiers are unique, exactly one entry and its price go.
     */
    method Remove(idUnico: string)
      modifies this
      ensures carrinho == Removed(old(carrinho), idUnico)
      ensures !HasId(carrinho, idUnico)
      ensures !HasId(old(carrinho), idUnico) ==> carrinho == old(carrinho)
      ensures HasId(old(carrinho), idUnico) ==> |carrinho| < |old(carrinho)|
      ensures Total(carrinho) == Total(old(carrinho)) - Total(Filter(old(carrinho), Carries(idUnico)))
      ensures old(Valid()) ==> Valid()
      ensures old(Valid()) ==> forall k :: 0 <= k < |old(carrinho)| && old(carrinho)[k].idUnico == Some(idUnico) ==>
        |carrinho| == |old(carrinho)| - 1 && Total(carrinho) == Total(old(carrinho)) - old(carrinho)[k].price
    {
      RemovedContents(carrinho, idUnico);
      RemovedUnchanged(carrinho, idUnico);
      RemovedShrinks(carrinho, idUnico);
      TotalPartition(carrinho, idUnico);
      if Valid() {
        RemovedKeepsUnique(carrinho, idUnico);
        forall k | 0 <= k < |carrinho| && carrinho[k].idUnico == Some(idUnico)
          ensures |Removed(carrinho, idUnico)| == |carrinho| - 1
          ensures Total(Removed(carrinho, idUnico)) == Total(carrinho) - carrinho[k].price
        {
          RemovedExactlyOne(carrinho, idUnico, k);
          TotalRemoved(carrinho, idUnico, k);
        }
      }
      carrinho := Filter(carrinho, Keeps(idUnico));
    }
  }
}
