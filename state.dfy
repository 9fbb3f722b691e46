/**
 * The states of a customer journey: which products (loans, penalties,
 * discounts) the customer holds.
 */
module States {
  import opened Wrappers

  /** An attribute value of a product or a condition. */
  datatype AttributeValue = IntAttribute(value: int)

  type Attributes = map<string, AttributeValue>

  /** `Product.ProductType`. */
  datatype ProductType = NEW_LOAN | PENALTY | DISCOUNT

  /** `Product`: a product type with its attributes; equal when both are equal. */
  datatype Product = Product(productType: ProductType, attributes: Attributes)

  /** Some two positions of `products` hold equal products. */
  predicate HasDuplicates(products: seq<Product>)
  {
    exists i, j | 0 <= i < j < |products| :: products[i] == products[j]
  }

  /** `State`: the set of products held. */
  datatype State = State(products: set<Product>)
  {
    /** `withProduct`: this state with `product` added; the state itself is unchanged. */
    function WithProduct(product: Product): (r: State)
      ensures product in r.products
      ensures products <= r.products
      ensures r.products - {product} == products - {product}
    {
      State(products + {product})
    }

    /** `contains`: some product of the state has the given type. */
    function Contains(productType: ProductType): (r: bool)
      ensures r <==> productType in (set product | product in products :: product.productType)
      ensures products == {} ==> !r
    {
      exists product | product in products :: product.productType == productType
    }
  }

  /** `State.empty`. */
  function Empty(): (r: State)
    ensures |r.products| == 0
  {
    State({})
  }

  /**
   * `State.of(products...)`: `Set.of` refuses an argument list that repeats a
   * product with an `IllegalArgumentException`.
   */
  function Of(products: seq<Product>): (r: Result<State>)
    ensures r.Thrown? <==> HasDuplicates(products)
    ensures r.Thrown? ==> r.exception == IllegalArgumentException
    ensures r.Ok? ==> forall p :: p in r.value.products <==> p in products
    ensures r.Ok? ==> |r.value.products| == |products|
  {
    if HasDuplicates(products) then Thrown(IllegalArgumentException)
    else
      DistinctSize(products);
      Ok(State(set p | p in products))
  }

  /** A sequence without repetitions has as many distinct elements as positions. */
  lemma {:induction false} DistinctSize(products: seq<Product>)
    requires !HasDuplicates(products)
    ensures |set p | p in products| == |products|
  {
    if products != [] {
      var rest := products[1..];
      DistinctSize(rest);
      assert products[0] !in rest;
      assert (set p | p in products) == (set p | p in rest) + {products[0]};
    }
  }

  /** The empty state holds no product of any type. */
  lemma EmptyContainsNothing(productType: ProductType)
    ensures !Empty().Contains(productType)
  {
  }

  /** After `withProduct`, the state contains the new product's type and every type it contained before, and nothing else. */
  lemma WithProductContains(state: State, product: Product, productType: ProductType)
    ensures state.WithProduct(product).Contains(productType) <==>
              state.Contains(productType) || product.productType == productType
  {
    if state.WithProduct(product).Contains(productType) && product.productType != productType {
      var p :| p in state.WithProduct(product).products && p.productType == productType;
      assert p in state.products;
    }
  }

  /** Adding a product the state already holds gives an equal state. */
  lemma WithProductIdempotent(state: State, product: Product)
    ensures state.WithProduct(product).WithProduct(product) == state.WithProduct(product)
    ensures product in state.products ==> state.WithProduct(product) == state
  {
  }

  /** The order in which products are added does not matter. */
  lemma WithProductCommutes(state: State, a: Product, b: Product)
    ensures state.WithProduct(a).WithProduct(b) == state.WithProduct(b).WithProduct(a)
  {
  }

  /** A state built by `of` contains exactly the types of the products given. */
  lemma OfContains(products: seq<Product>, productType: ProductType)
    requires !HasDuplicates(products)
    ensures Of(products).Ok?
    ensures Of(products).value.Contains(productType) <==> exists i | 0 <= i < |products| :: products[i].productType == productType
  {
    var state := Of(products).value;
    if state.Contains(productType) {
      var p :| p in state.products && p.productType == productType;
      var i :| 0 <= i < |products| && products[i] == p;
    }
    if i :| 0 <= i < |products| && products[i].productType == productType {
      assert products[i] in state.products;
    }
  }

  /** Building a state one product at a time from the empty one agrees with `of`. */
  lemma {:induction false} OfIsRepeatedWithProduct(products: seq<Product>)
    requires !HasDuplicates(products)
    ensures Of(products) == Ok(AddAll(Empty(), products))
  {
    var state := Of(products).value;
    AddAllProducts(Empty(), products);
    assert state.products == AddAll(Empty(), products).products;
  }

  /** `withProduct` applied to each product in turn. */
  function AddAll(state: State, products: seq<Product>): State
    decreases |products|
  {
    if products == [] then state else AddAll(state.WithProduct(products[0]), products[1..])
  }

  lemma {:induction false} AddAllProducts(state: State, products: seq<Product>)
    ensures forall p :: p in AddAll(state, products).products <==> p in state.products || p in products
    decreases |products|
  {
    if products != [] {
      AddAllProducts(state.WithProduct(products[0]), products[1..]);
      assert forall p :: p in products <==> p == products[0] || p in products[1..];
    }
  }
}
