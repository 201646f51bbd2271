/** The three tables the scripts read: Menu.csv, MenuItem.csv and Dish.csv,
    reduced to the columns the cleaning touches. */
module Records {
  import opened Frames

  /** One menu listing (a row of Menu.csv). */
  datatype MenuRow = MenuRow(date: Cell, currency: Cell, currencySymbol: Cell, location: Cell, occasion: Cell)

  /** One menu item (a row of MenuItem.csv); `dish_id` is numeric, NaN when absent. */
  datatype ItemRow = ItemRow(dishId: Option<int>, price: Cell)

  /** One dish (a row of Dish.csv). */
  datatype Dish = Dish(id: int, name: Cell)

  // Column selectors, `df["date"]` and so on.
  function DateOf(r: MenuRow): Cell { r.date }
  function CurrencyOf(r: MenuRow): Cell { r.currency }
  function SymbolOf(r: MenuRow): Cell { r.currencySymbol }
  function LocationOf(r: MenuRow): Cell { r.location }
  function OccasionOf(r: MenuRow): Cell { r.occasion }
  function PriceOf(r: ItemRow): Cell { r.price }
  function DishIdOf(r: ItemRow): Option<int> { r.dishId }
}
