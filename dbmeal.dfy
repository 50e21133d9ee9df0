/** The meal record (`DBMeal`): a name, a quantity and a price kept as text. */
module Meals {

  /** The value a `DBMeal` holds; the store and the routes copy meals by value. */
  datatype Meal = Meal(name: string, quantity: int, price: string)

  class DBMeal {
    var name: string
    var quantity: int
    var price: string

    /** The meal this object currently holds. */
    function Value(): Meal
      reads this
    {
      Meal(name, quantity, price)
    }

    /** `DBMeal()`: empty name, quantity 0, empty price. */
    constructor Default()
      ensures Value() == Meal("", 0, "")
    {
      name, quantity, price := "", 0, "";
    }

    /** `DBMeal(name, quantity, price)`: the arguments, stored unchanged. */
    constructor (name: string, quantity: int, price: string)
      ensures Value() == Meal(name, quantity, price)
    {
      this.name, this.quantity, this.price := name, quantity, price;
    }

    method GetName() returns (r: string)
      ensures r == Value().name
    {
      r := name;
    }

    method GetQuantity() returns (r: int)
      ensures r == Value().quantity
    {
      r := quantity;
    }

    method GetPrice() returns (r: string)
      ensures r == Value().price
    {
      r := price;
    }

    method SetName(name: string)
      modifies this`name
      ensures Value() == old(Value()).(name := name)
    {
      this.name := name;
    }

    method SetQuantity(quantity: int)
      modifies this`quantity
      ensures Value() == old(Value()).(quantity := quantity)
    {
      this.quantity := quantity;
    }

    method SetPrice(price: string)
      modifies this`price
      ensures Value() == old(Value()).(price := price)
    {
      this.price := price;
    }
  }
}
