/** The React price widget of src/App.jsx: header-keyed rows from a download, one menu per
    option of the chosen product type, and the price of the first row that agrees with
    every option of the product type, an unselected option agreeing only with a row that
    lacks its column. */
module PriceApp {
  import opened Wrappers
  import opened Seqs

  /** One row of the downloaded table, keyed by column header. A column the row does not
      have reads as `undefined`. */
  type Record = map<string, string>

  datatype ProductOption = ProductOption(title: string, key: string)

  datatype ProductType = ProductType(title: string, value: string, csv: string,
                                     options: seq<ProductOption>)

  /** The shown price: the placeholder "-" or the `Price` cell of the matched row (its
      rendering as dollars with two decimals is not modelled). */
  datatype Display = Dash | Amount(priceText: string)

  const ProductTypes: seq<ProductType> := [
    ProductType("CARBONLESS FORMS - Black", "black",
      "https://raw.githubusercontent.com/AthanMonk/tc/refs/heads/main/1-Carbonless-Forms-Black.csv",
      [ProductOption("Sides", "Sides"), ProductOption("Parts/Paper Color", "Parts/Paper Color"),
       ProductOption("Size", "Size"), ProductOption("Quantity", "Quantity")]),
    ProductType("CARBONLESS FORMS - Full Color", "fullcolor",
      "https://raw.githubusercontent.com/AthanMonk/tc/refs/heads/main/2-Carbonless-Forms-Full-Color.csv",
      [ProductOption("Parts/Paper Color", "Parts/Paper Color"), ProductOption("Size", "Size"),
       ProductOption("Quantity", "Quantity")])
  ]

  /** `m[key]`, with None for `undefined`. */
  function Get(m: map<string, string>, key: string): Option<string> {
    if key in m then Some(m[key]) else None
  }

  /** `Boolean(v)` for a cell: defined and not the empty string. */
  predicate Truthy(v: Option<string>) {
    v.Some? && v.value != ""
  }

  /** `csvData.map((row) => row[key]).filter(Boolean)`: the non-empty cells of the column,
      in row order. */
  function Present(rows: seq<Record>, key: string): (values: seq<string>)
    ensures forall v :: v in values <==>
      v != "" && exists i :: 0 <= i < |rows| && Get(rows[i], key) == Some(v)
  {
    if |rows| == 0 then []
    else
      var rest := Present(rows[1..], key);
      assert forall v :: (exists i :: 0 <= i < |rows| - 1 && Get(rows[1..][i], key) == Some(v)) ==>
        exists i :: 0 <= i < |rows| && Get(rows[i], key) == Some(v);
      assert forall v :: (exists i :: 0 <= i < |rows| && Get(rows[i], key) == Some(v)) ==>
        Get(rows[0], key) == Some(v) || exists i :: 0 <= i < |rows| - 1 && Get(rows[1..][i], key) == Some(v);
      (if Truthy(Get(rows[0], key)) then [rows[0][key]] else []) + rest
  }

  /** `csvData.map((row) => row[key])`: the cell of every row, None for `undefined`. */
  function Column(rows: seq<Record>, key: string): seq<Option<string>> {
    seq(|rows|, i requires 0 <= i < |rows| => Get(rows[i], key))
  }

  /** `Present` keeps the truthy cells in row order, one per row that has one: its j-th
      value is the cell of row `idx[j]`, where `idx` lists, in increasing order, exactly
      the rows whose cell is truthy. */
  lemma PresentInOrder(rows: seq<Record>, key: string)
    ensures var idx := FilterIndices(Column(rows, key), Truthy);
      && |Present(rows, key)| == |idx|
      && (forall j :: 0 <= j < |idx| ==>
            idx[j] < |rows| && Get(rows[idx[j]], key) == Some(Present(rows, key)[j]))
      && (forall j1, j2 :: 0 <= j1 < j2 < |idx| ==> idx[j1] < idx[j2])
      && forall k :: 0 <= k < |rows| ==> (k in idx <==> Truthy(Get(rows[k], key)))
  {
    var col := Column(rows, key);
    FilterCorrespond(col, Truthy);
    PresentFilter(rows, key);
  }

  /** The values as defined cells. */
  function Wrap(values: seq<string>): seq<Option<string>> {
    seq(|values|, i requires 0 <= i < |values| => Some(values[i]))
  }

  lemma WrapCons(v: string, values: seq<string>)
    ensures Wrap([v] + values) == [Some(v)] + Wrap(values)
  {
    var l, r := Wrap([v] + values), [Some(v)] + Wrap(values);
    forall i | 0 <= i < |l| ensures l[i] == r[i] {
      if i > 0 {
        assert ([v] + values)[i] == values[i - 1];
      }
    }
  }

  /** `Present` is `filter(Boolean)` over the column, with the cells unwrapped. */
  lemma {:induction false} PresentFilter(rows: seq<Record>, key: string)
    ensures Filter(Column(rows, key), Truthy) == Wrap(Present(rows, key))
  {
    if |rows| > 0 {
      var cell := Get(rows[0], key);
      var tail := Column(rows[1..], key);
      ColumnCons(rows, key);
      PresentFilter(rows[1..], key);
      var rest := Present(rows[1..], key);
      if Truthy(cell) {
        FilterConsKept(cell, tail, Truthy);
        WrapCons(rows[0][key], rest);
        assert Present(rows, key) == [rows[0][key]] + rest;
      } else {
        FilterConsDropped(cell, tail, Truthy);
        assert Present(rows, key) == rest;
      }
    } else {
      assert Column(rows, key) == [];
    }
  }

  lemma ColumnCons(rows: seq<Record>, key: string)
    requires |rows| > 0
    ensures Column(rows, key) == [Get(rows[0], key)] + Column(rows[1..], key)
  {
    var l, r := Column(rows, key), [Get(rows[0], key)] + Column(rows[1..], key);
    forall i | 0 <= i < |l| ensures l[i] == r[i] {
      if i > 0 {
        assert rows[i] == rows[1..][i - 1];
      }
    }
  }

  /** `getOptionValues(key)`: the distinct non-empty cells of the column, in order of first
      appearance, over all rows and whatever is selected. */
  function OptionValues(rows: seq<Record>, key: string): seq<string> {
    Dedupe(Present(rows, key))
  }

  /** The option values hold no repetition and no empty value; a value is offered exactly
      when some row has it in the column; and they come in the order in which they first
      appear in the column. */
  lemma OptionValuesSpec(rows: seq<Record>, key: string)
    ensures Distinct(OptionValues(rows, key))
    ensures "" !in OptionValues(rows, key)
    ensures forall v :: v in OptionValues(rows, key) <==>
      v != "" && exists i :: 0 <= i < |rows| && Get(rows[i], key) == Some(v)
    ensures var r := OptionValues(rows, key);
      forall i, j :: 0 <= i < j < |r| ==>
        FirstIndexOf(Present(rows, key), r[i]) < FirstIndexOf(Present(rows, key), r[j])
  {
    DedupeOrder(Present(rows, key));
  }

  /** `productType.options.every((opt) => r[opt.key] === selections[opt.key])`; a key that
      is neither in the row nor selected compares `undefined === undefined` and agrees. */
  predicate RowMatches(row: Record, options: seq<ProductOption>, selections: map<string, string>) {
    forall i :: 0 <= i < |options| ==> Get(row, options[i].key) == Get(selections, options[i].key)
  }

  /** The price effect once data is present: the `Price` cell of the first matching row
      when it is non-empty, "-" otherwise. */
  function PriceFor(rows: seq<Record>, productType: ProductType, selections: map<string, string>): Display {
    match First(rows, (row: Record) => RowMatches(row, productType.options, selections))
    case None => Dash
    case Some(i) => if Truthy(Get(rows[i], "Price")) then Amount(rows[i]["Price"]) else Dash
  }

  /** Row `i` is the first row that agrees with every option of the product type; an
      option that is not selected agrees only with a row that lacks its column. */
  predicate IsFirstMatch(rows: seq<Record>, productType: ProductType, selections: map<string, string>, i: int) {
    IsFirst(rows, (row: Record) => RowMatches(row, productType.options, selections), i)
  }

  /** A price is shown exactly when there is a first matching row with a non-empty `Price`,
      and it is that cell; "-" is shown when no row matches or the first match has no price. */
  lemma PriceForSpec(rows: seq<Record>, productType: ProductType, selections: map<string, string>)
    ensures forall p :: PriceFor(rows, productType, selections) == Amount(p) <==>
      exists i :: IsFirstMatch(rows, productType, selections, i) && Get(rows[i], "Price") == Some(p) && p != ""
    ensures PriceFor(rows, productType, selections) == Dash <==>
      || (forall j :: 0 <= j < |rows| ==> !RowMatches(rows[j], productType.options, selections))
      || exists i :: IsFirstMatch(rows, productType, selections, i) && !Truthy(Get(rows[i], "Price"))
  {
    var found := First(rows, (row: Record) => RowMatches(row, productType.options, selections));
    forall i | IsFirstMatch(rows, productType, selections, i) ensures found == Some(i) {
      FirstIsUnique(rows, (row: Record) => RowMatches(row, productType.options, selections), i);
    }
    if found.Some? {
      assert IsFirstMatch(rows, productType, selections, found.value);
    }
  }

  /** While an option that every row defines is still unselected, no row matches and the
      price stays "-"; in particular right after a product change, which empties the
      selections. */
  lemma IncompleteSelectionShowsDash(rows: seq<Record>, productType: ProductType,
                                     selections: map<string, string>, k: nat)
    requires k < |productType.options| && productType.options[k].key !in selections
    requires forall i :: 0 <= i < |rows| ==> productType.options[k].key in rows[i]
    ensures PriceFor(rows, productType, selections) == Dash
  {
    forall j | 0 <= j < |rows| ensures !RowMatches(rows[j], productType.options, selections) {
      assert Get(rows[j], productType.options[k].key) != Get(selections, productType.options[k].key);
    }
  }

  /** `PRODUCT_TYPES.find(pt => pt.value === value)`. */
  function FindProduct(value: string): (r: Option<ProductType>)
    ensures r.Some? <==> value == "black" || value == "fullcolor"
    ensures r.Some? ==> r.value in ProductTypes && r.value.value == value
  {
    match First(ProductTypes, (pt: ProductType) => pt.value == value)
    case None => None
    case Some(i) => Some(ProductTypes[i])
  }

  /** The state of the `App` component and the transitions its setters make. */
  class App {
    var productType: ProductType
    var csvData: seq<Record>
    var selections: map<string, string>
    var price: Display

    /** The chosen product type is always an entry of `PRODUCT_TYPES`: it starts as the
        first one and a product change only ever picks a listed one. Every method keeps it. */
    ghost predicate Valid()
      reads this
    {
      productType in ProductTypes
    }

    /** The initial state: the first product type, no data, no selections, price "-". */
    constructor ()
      ensures Valid()
      ensures productType == ProductTypes[0] && csvData == [] && selections == map[] && price == Dash
    {
      productType := ProductTypes[0];
      csvData := [];
      selections := map[];
      price := Dash;
    }

    /** The product menu's change handler, followed by the product effect's resets: the
        selections are emptied and the price returns to "-". The rows of the previous
        product stay until the new download completes. */
    method ChooseProduct(value: string)
      requires Valid() && FindProduct(value).Some?
      modifies this
      ensures Valid() && productType.value == value
      ensures selections == map[] && price == Dash
      ensures csvData == old(csvData)
    {
      productType := FindProduct(value).value;
      selections := map[];
      price := Dash;
    }

    /** The download's `complete` callback: the table is replaced wholesale. */
    method LoadData(rows: seq<Record>)
      requires Valid()
      modifies this`csvData
      ensures Valid() && csvData == rows
    {
      csvData := rows;
    }

    /** An option menu's change handler: only the selection for `key` changes. */
    method Select(key: string, value: string)
      requires Valid()
      modifies this`selections
      ensures Valid()
      ensures Get(selections, key) == Some(value)
      ensures forall k :: k != key ==> Get(selections, k) == Get(old(selections), k)
    {
      selections := selections[key := value];
    }

    /** The price effect: without data the price is left as it is; with data it becomes
        the price of the first row that agrees with every option of the product type. */
    method RefreshPrice()
      requires Valid()
      modifies this`price
      ensures Valid()
      ensures |csvData| == 0 ==> price == old(price)
      ensures |csvData| > 0 ==> price == PriceFor(csvData, productType, selections)
    {
      if |csvData| == 0 {
        return;
      }
      price := PriceFor(csvData, productType, selections);
    }
  }
}
