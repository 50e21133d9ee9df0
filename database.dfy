/**
 * The meal store (`DBSQLite`) over an in-memory table of rows (id, name, quantity, price).
 *
 * SQL execution is not modelled; the table is a sequence of rows in rowid order, which is the order in
 * which `SELECT * FROM meals` returns them. A new row gets the id SQLite gives it: one more than the
 * largest id in the table, 1 for an empty table. The table itself may not exist: it is only created
 * when the seed file exists, and until then every statement fails.
 */
module Database {
  import opened Common
  import opened Meals
  import Utility

  datatype Row = Row(id: int, meal: Meal)

  type Table = seq<Row>

  /** Ids strictly increase along the table (rowid order). */
  predicate IdsAscending(t: Table)
  {
    forall i, j :: 0 <= i < j < |t| ==> t[i].id < t[j].id
  }

  /** The id SQLite gives the next inserted row: one more than the largest id, 1 for an empty table. */
  function NextId(t: Table): (id: int)
    ensures forall i :: 0 <= i < |t| ==> t[i].id < id
    ensures t == [] ==> id == 1
    ensures t != [] ==> exists i :: 0 <= i < |t| && t[i].id == id - 1
  {
    if t == [] then 1
    else if |t| == 1 then t[0].id + 1
    else
      var rest := NextId(t[1..]);
      if t[0].id + 1 >= rest then t[0].id + 1 else rest
  }

  /** The first row (in rowid order) whose name is `name`. */
  function FirstNamed(t: Table, name: string): (r: Option<nat>)
    ensures r.Some? ==> r.value < |t| && t[r.value].meal.name == name
    ensures r.Some? ==> forall j :: 0 <= j < r.value ==> t[j].meal.name != name
    ensures r.None? <==> forall j :: 0 <= j < |t| ==> t[j].meal.name != name
  {
    if t == [] then None
    else if t[0].meal.name == name then Some(0)
    else match FirstNamed(t[1..], name)
      case None => None
      case Some(i) => Some(i + 1)
  }

  /** The first row whose id is `id`. */
  function FirstWithId(t: Table, id: int): (r: Option<nat>)
    ensures r.Some? ==> r.value < |t| && t[r.value].id == id
    ensures r.Some? ==> forall j :: 0 <= j < r.value ==> t[j].id != id
    ensures r.None? <==> forall j :: 0 <= j < |t| ==> t[j].id != id
  {
    if t == [] then None
    else if t[0].id == id then Some(0)
    else match FirstWithId(t[1..], id)
      case None => None
      case Some(i) => Some(i + 1)
  }

  /** `DELETE FROM meals WHERE id = ?`: the table without the rows of that id, in the same order. */
  function WithoutId(t: Table, id: int): (r: Table)
    ensures forall row :: row in r <==> row in t && row.id != id
    ensures |r| <= |t|
  {
    if t == [] then []
    else
      var rest := WithoutId(t[1..], id);
      if t[0].id == id then rest
      else
        assert forall row :: row in rest ==> row in t[1..];
        [t[0]] + rest
  }

  /** `create_new_meal` on the table state: what it reports and what table it leaves. */
  function Create(st: Option<Table>, m: Meal): (Outcome, Option<Table>)
  {
    if st.None? then (Fail(StoreFailure), st)
    else if FirstNamed(st.value, m.name).Some? then (Fail(AlreadyExists), st)
    else (Pass, Some(st.value + [Row(NextId(st.value), m)]))
  }

  /**
   * A text column read through `getText()`: the `const char*` becomes a `std::string` that ends at the
   * first zero byte, so a stored value is cut there.
   */
  function CString(s: string): (r: string)
    ensures r <= s && '\0' !in r
    ensures |r| < |s| ==> s[|r|] == '\0'
    ensures '\0' !in s ==> r == s
  {
    if s == [] || s[0] == '\0' then [] else [s[0]] + CString(s[1..])
  }

  /** The meal a row holds as `get_meal_by_name` reads it back: name and price through `getText()`. */
  function AsText(m: Meal): Meal
  {
    Meal(CString(m.name), m.quantity, CString(m.price))
  }

  /**
   * `get_meal_by_name` on the table state. The row is matched on the whole bound name, but its name and
   * price come back cut at the first zero byte (`get_meal_by_id` and `get_all_meals` use `getString()`,
   * which keeps them whole).
   */
  function LookupName(st: Option<Table>, name: string): Result<Meal>
  {
    if st.None? then Err(StoreFailure)
    else match FirstNamed(st.value, name)
      case None => Err(NotFound)
      case Some(i) => Ok(AsText(st.value[i].meal))
  }

  /** `get_meal_by_id` on the table state. */
  function LookupId(st: Option<Table>, id: int): Result<Meal>
  {
    if st.None? then Err(StoreFailure)
    else match FirstWithId(st.value, id)
      case None => Err(NotFound)
      case Some(i) => Ok(st.value[i].meal)
  }

  /** `delete_mail_by_id` on the table state: status 200 whether or not a row had that id. */
  function Delete(st: Option<Table>, id: int): (Result<int>, Option<Table>)
  {
    if st.None? then (Err(StoreFailure), st) else (Ok(200), Some(WithoutId(st.value, id)))
  }

  /**
   * A created meal is found by its name afterwards (POST then GET by name), with its name and price as
   * `getText()` reads them, which is the meal itself when neither holds a zero byte.
   */
  lemma CreateThenLookup(st: Option<Table>, m: Meal)
    requires st.Some? ==> IdsAscending(st.value)
    requires Create(st, m).0 == Pass
    ensures LookupName(Create(st, m).1, m.name) == Ok(AsText(m))
    ensures '\0' !in m.name && '\0' !in m.price ==> LookupName(Create(st, m).1, m.name) == Ok(m)
  {
    var t := st.value;
    var t' := t + [Row(NextId(t), m)];
    assert t'[|t|].meal.name == m.name;
    assert forall j :: 0 <= j < |t| ==> t'[j] == t[j];
    assert FirstNamed(t', m.name) == Some(|t|);
  }

  /** Creation fails exactly on a missing table or a taken name, and then changes nothing; otherwise it adds one row with a fresh id. */
  lemma CreateOutcome(st: Option<Table>, m: Meal)
    requires st.Some? ==> IdsAscending(st.value)
    ensures st.None? ==> Create(st, m).0 == Fail(StoreFailure)
    ensures Create(st, m).0 == Pass <==>
      st.Some? && forall i :: 0 <= i < |st.value| ==> st.value[i].meal.name != m.name
    ensures Create(st, m).0.Fail? ==> Create(st, m).1 == st
    ensures Create(st, m).0 == Fail(AlreadyExists) <==>
      st.Some? && exists i :: 0 <= i < |st.value| && st.value[i].meal.name == m.name
    ensures Create(st, m).0 == Pass ==>
      var t' := Create(st, m).1.value;
      && t'[..|st.value|] == st.value && |t'| == |st.value| + 1
      && Last(t').meal == m && forall i :: 0 <= i < |st.value| ==> st.value[i].id < Last(t').id
    ensures Create(st, m).0 == Pass ==> IdsAscending(Create(st, m).1.value)
  {
    if st.Some? && FirstNamed(st.value, m.name).None? {
      var t := st.value;
      var t' := t + [Row(NextId(t), m)];
      assert t'[..|t|] == t;
      forall i, j | 0 <= i < j < |t'|
        ensures t'[i].id < t'[j].id
      {
        if j < |t| {
          assert t'[i] == t[i] && t'[j] == t[j];
        } else {
          assert t'[i] == t[i];
        }
      }
    }
  }

  /** A second creation under the same name fails. */
  lemma CreateTwiceFails(st: Option<Table>, m: Meal, m': Meal)
    requires st.Some? ==> IdsAscending(st.value)
    requires Create(st, m).0 == Pass && m'.name == m.name
    ensures Create(Create(st, m).1, m').0 == Fail(AlreadyExists)
  {
    CreateOutcome(st, m);
    var t' := Create(st, m).1.value;
    assert t'[|t'| - 1].meal.name == m'.name;
  }

  /** Deleting is idempotent, and afterwards no row has that id; every other row is still there. */
  lemma DeleteOutcome(st: Option<Table>, id: int)
    requires st.Some?
    ensures Delete(st, id).0 == Ok(200)
    ensures Delete(Delete(st, id).1, id) == Delete(st, id)
    ensures LookupId(Delete(st, id).1, id) == Err(NotFound)
    ensures forall row :: row in st.value && row.id != id ==> row in Delete(st, id).1.value
  {
    var r := WithoutId(st.value, id);
    WithoutIdIdempotent(st.value, id);
  }

  /** Deleting keeps the remaining rows in rowid order. */
  lemma {:induction false} WithoutIdKeepsOrder(t: Table, id: int)
    requires IdsAscending(t)
    ensures IdsAscending(WithoutId(t, id))
  {
    if t != [] {
      var rest := WithoutId(t[1..], id);
      WithoutIdKeepsOrder(t[1..], id);
      if t[0].id != id {
        HeadBeforeRest(t, rest);
        ConsAscending(t[0], rest);
      }
    }
  }

  /** A row in front of an ascending table whose ids all exceed its own keeps the table ascending. */
  lemma ConsAscending(head: Row, rest: Table)
    requires IdsAscending(rest)
    requires forall j :: 0 <= j < |rest| ==> head.id < rest[j].id
    ensures IdsAscending([head] + rest)
  {
    var r := [head] + rest;
    forall i, j | 0 <= i < j < |r|
      ensures r[i].id < r[j].id
    {
      if i == 0 {
        assert r[j] == rest[j - 1];
      } else {
        assert r[i] == rest[i - 1] && r[j] == rest[j - 1];
      }
    }
  }

  /** The first row of an ascending table has a smaller id than any row taken from the rest. */
  lemma HeadBeforeRest(t: Table, rest: Table)
    requires IdsAscending(t) && t != []
    requires forall row :: row in rest ==> row in t[1..]
    ensures forall j :: 0 <= j < |rest| ==> t[0].id < rest[j].id
  {
    forall j | 0 <= j < |rest|
      ensures t[0].id < rest[j].id
    {
      assert rest[j] in t[1..];
      var k :| 0 <= k < |t| - 1 && t[1..][k] == rest[j];
      assert t[k + 1] == rest[j];
    }
  }

  lemma {:induction false} WithoutIdIdempotent(t: Table, id: int)
    ensures WithoutId(WithoutId(t, id), id) == WithoutId(t, id)
  {
    if t != [] {
      WithoutIdIdempotent(t[1..], id);
      var rest := WithoutId(t[1..], id);
      if t[0].id != id {
        assert ([t[0]] + rest)[1..] == rest;
      }
    }
  }

  /** Looking up by id after deleting another id gives what it gave before. */
  lemma DeleteKeepsOthers(st: Option<Table>, id: int, other: int)
    requires st.Some? && IdsAscending(st.value) && other != id
    ensures LookupId(Delete(st, id).1, other) == LookupId(st, other)
  {
    var t := st.value;
    var r := WithoutId(t, id);
    var a, b := FirstWithId(t, other), FirstWithId(r, other);
    if a.Some? {
      assert t[a.value] in r;
      assert b.Some?;
      assert r[b.value] in t;
      var k :| 0 <= k < |t| && t[k] == r[b.value];
      assert k == a.value;
    }
  }

  // ---- the seed file

  /**
   * One line of the seed file split on ',' the way repeated `std::getline(ss, item, ',')` splits it: an
   * empty line gives no field, and a ',' at the very end opens no further field.
   */
  function Fields(line: string): seq<string>
  {
    FieldsFrom([], line)
  }

  /** The fields still to come when `item` has been read since the last ',' and `rest` is unread. */
  function FieldsFrom(item: string, rest: string): seq<string>
    decreases |rest|
  {
    if rest == [] then (if item == [] then [] else [item])
    else if rest[0] == ',' then [item] + FieldsFrom([], rest[1..])
    else FieldsFrom(item + [rest[0]], rest[1..])
  }

  /** The inverse: fields joined with ','. */
  function Join(items: seq<string>): string
  {
    if items == [] then ""
    else if |items| == 1 then items[0]
    else items[0] + "," + Join(items[1..])
  }

  /** Text without ',' only extends the field being read. */
  lemma {:induction false} ReadPlain(item: string, plain: string, rest: string)
    requires ',' !in plain
    ensures FieldsFrom(item, plain + rest) == FieldsFrom(item + plain, rest)
    decreases |plain|
  {
    if plain != [] {
      assert plain[0] in plain && (plain + rest)[0] == plain[0];
      assert (plain + rest)[1..] == plain[1..] + rest;
      assert item + [plain[0]] + plain[1..] == item + plain;
      ReadPlain(item + [plain[0]], plain[1..], rest);
    } else {
      assert plain + rest == rest && item + plain == item;
    }
  }

  /** A ','-free field followed by ',' is the first field of the rest. */
  lemma FieldsAfterPlain(item: string, rest: string)
    requires ',' !in item
    ensures Fields(item + [','] + rest) == [item] + Fields(rest)
    ensures Fields(item) == if item == [] then [] else [item]
  {
    assert [] + item == item && item + [] == item;
    assert item + [','] + rest == item + ([','] + rest);
    ReadPlain([], item, [','] + rest);
    assert ([','] + rest)[1..] == rest;
    ReadPlain([], item, []);
  }

  /** Splitting then joining gives the line back, unless the line ends in a ',' (which the split drops). */
  lemma {:induction false} JoinFields(line: string)
    requires line == [] || Last(line) != ','
    ensures Join(Fields(line)) == line
    decreases |line|
  {
    if line != [] {
      match Utility.Find(line, ',')
      case None =>
        FieldsAfterPlain(line, "");
      case Some(i) =>
        var rest := line[i + 1..];
        assert line == line[..i] + [','] + rest;
        assert rest != [] && Last(rest) == Last(line);
        JoinFields(rest);
        FieldsAfterPlain(line[..i], rest);
        assert |Fields(rest)| >= 1;
    }
  }

  /** Joining then splitting gives the fields back when none holds a ',' and the last is not empty. */
  lemma {:induction false} FieldsJoin(items: seq<string>)
    requires forall k :: 0 <= k < |items| ==> ',' !in items[k]
    requires items == [] || Last(items) != ""
    ensures Fields(Join(items)) == items
  {
    if |items| == 1 {
      FieldsAfterPlain(items[0], "");
    } else if |items| > 1 {
      FieldsJoin(items[1..]);
      FieldsAfterPlain(items[0], Join(items[1..]));
      assert items[0] + "," + Join(items[1..]) == items[0] + [','] + Join(items[1..]);
    }
  }

  /** The getline loop, character by character. */
  method SplitFields(line: string) returns (row: seq<string>)
    ensures row == Fields(line)
  {
    row := [];
    var item := "";
    var i := 0;
    while i < |line|
      invariant i <= |line|
      invariant Fields(line) == row + FieldsFrom(item, line[i..])
    {
      assert line[i..][1..] == line[i + 1..];
      if line[i] == ',' {
        row := row + [item];
        item := "";
      } else {
        item := item + [line[i]];
      }
      i := i + 1;
    }
    if item != "" {
      row := row + [item];
    }
  }

  predicate IsDigit(c: char)
  {
    '0' <= c <= '9'
  }

  /** Only decimal digits. */
  predicate AllDigits(s: string)
  {
    forall k :: 0 <= k < |s| ==> IsDigit(s[k])
  }

  predicate HasSign(s: string)
  {
    s != [] && (s[0] == '-' || s[0] == '+')
  }

  /** A plain decimal numeral with an optional sign. */
  predicate IsDecimal(s: string)
  {
    if HasSign(s) then |s| > 1 && AllDigits(s[1..]) else s != [] && AllDigits(s)
  }

  /** The value of a string of decimal digits, most significant first. */
  function DigitsValue(digits: string): nat
    requires AllDigits(digits)
  {
    if digits == [] then 0
    else 10 * DigitsValue(digits[..|digits| - 1]) + (digits[|digits| - 1] as int - '0' as int)
  }

  /** `std::stoi` on a plain decimal numeral. */
  function Stoi(s: string): (n: int)
    requires IsDecimal(s)
    ensures s[0] == '-' ==> n <= 0
    ensures s[0] != '-' ==> n >= 0
  {
    if s[0] == '-' then 0 - DigitsValue(s[1..])
    else if s[0] == '+' then DigitsValue(s[1..])
    else DigitsValue(s)
  }

  /** A seed line the seeding loop can use: at least three fields, the second a numeral that fits an `int`. */
  predicate SeedLineOk(line: string)
  {
    |Fields(line)| >= 3 && IsDecimal(Fields(line)[1]) && -0x8000_0000 <= Stoi(Fields(line)[1]) < 0x8000_0000
  }

  function SeedMeal(fields: seq<string>): Meal
    requires |fields| >= 3 && IsDecimal(fields[1])
  {
    Meal(fields[0], Stoi(fields[1]), fields[2])
  }

  /** The rows the seeding loop inserts into a freshly created table for the given lines. */
  function SeedTable(lines: seq<string>): (t: Table)
    requires forall k :: 0 <= k < |lines| ==> SeedLineOk(lines[k])
    ensures |t| == |lines| && IdsAscending(t)
    ensures t != [] ==> Last(t).id == |t|
  {
    if lines == [] then []
    else
      var prev := SeedTable(lines[..|lines| - 1]);
      var line := lines[|lines| - 1];
      assert SeedLineOk(line);
      prev + [Row(NextId(prev), SeedMeal(Fields(line)))]
  }

  /** The seeded table holds line k of the file as row k, with id k + 1. */
  lemma {:induction false} SeedTableRows(lines: seq<string>, k: nat)
    requires forall j :: 0 <= j < |lines| ==> SeedLineOk(lines[j])
    requires k < |lines|
    ensures SeedTable(lines)[k] == Row(k + 1, SeedMeal(Fields(lines[k])))
  {
    if k < |lines| - 1 {
      var init := lines[..|lines| - 1];
      SeedTableRows(init, k);
    }
  }

  /** The store. */
  class MealTable {
    /** The `meals` table, None while it does not exist. */
    var meals: Option<Table>

    ghost predicate Valid()
      reads this
    {
      meals.Some? ==> IdsAscending(meals.value)
    }

    /**
     * `DBSQLite(file_name)`: open the database (whose `meals` table is `persisted`, None when absent)
     * and seed it; `seedLines` is the content of the seed file, None when the file does not exist.
     */
    constructor (persisted: Option<Table>, seedLines: Option<seq<string>>)
      requires persisted.Some? ==> IdsAscending(persisted.value)
      requires persisted.None? && seedLines.Some? ==>
        forall k :: 0 <= k < |seedLines.value| ==> SeedLineOk(seedLines.value[k])
      ensures Valid()
      ensures meals == if persisted.None? && seedLines.Some? then Some(SeedTable(seedLines.value)) else persisted
    {
      meals := persisted;
      new;
      CreateTableIfNotExist(seedLines);
    }

    /** Create and fill the table from the seed file, only when the file exists and the table does not. */
    method CreateTableIfNotExist(seedLines: Option<seq<string>>)
      requires Valid()
      requires meals.None? && seedLines.Some? ==>
        forall k :: 0 <= k < |seedLines.value| ==> SeedLineOk(seedLines.value[k])
      modifies this
      ensures Valid()
      ensures meals == if old(meals).None? && seedLines.Some? then Some(SeedTable(seedLines.value)) else old(meals)
    {
      if seedLines.Some? && meals.None? {
        var lines := seedLines.value;
        meals := Some([]);
        var data: seq<seq<string>> := [];
        for i := 0 to |lines|
          invariant |data| == i
          invariant forall j :: 0 <= j < i ==> data[j] == Fields(lines[j])
        {
          var row := SplitFields(lines[i]);
          data := data + [row];
        }
        var t: Table := [];
        for i := 0 to |data|
          invariant t == SeedTable(lines[..i])
        {
          assert lines[..i + 1][..i] == lines[..i];
          t := t + [Row(NextId(t), Meal(data[i][0], Stoi(data[i][1]), data[i][2]))];
        }
        assert lines[..|lines|] == lines;
        meals := Some(t);
      }
    }

    method CreateNewMeal(meal: DBMeal) returns (r: Outcome)
      requires Valid()
      modifies this
      ensures Valid()
      ensures (r, meals) == Create(old(meals), meal.Value())
    {
      if meals.None? {
        return Fail(StoreFailure);
      }
      var name := meal.GetName();
      if FirstNamed(meals.value, name).Some? {
        return Fail(AlreadyExists);
      }
      var quantity := meal.GetQuantity();
      var price := meal.GetPrice();
      var t := meals.value;
      meals := Some(t + [Row(NextId(t), Meal(name, quantity, price))]);
      CreateOutcome(old(meals), meal.Value());
      r := Pass;
    }

    method GetMealByName(name: string) returns (r: Result<Meal>)
      ensures r == LookupName(meals, name)
    {
      if meals.None? {
        return Err(StoreFailure);
      }
      var found := FirstNamed(meals.value, name);
      if found.None? {
        return Err(NotFound);
      }
      var row := meals.value[found.value];
      var meal := new DBMeal(CString(row.meal.name), row.meal.quantity, CString(row.meal.price));
      r := Ok(meal.Value());
    }

    method GetMealById(id: int) returns (r: Result<Meal>)
      ensures r == LookupId(meals, id)
    {
      if meals.None? {
        return Err(StoreFailure);
      }
      var found := FirstWithId(meals.value, id);
      if found.None? {
        return Err(NotFound);
      }
      var row := meals.value[found.value];
      var meal := new DBMeal.Default();
      meal.SetName(row.meal.name);
      meal.SetQuantity(row.meal.quantity);
      meal.SetPrice(row.meal.price);
      r := Ok(meal.Value());
    }

    /** Every meal, in store order, without ids. */
    method GetAllMeals() returns (r: Result<seq<Meal>>)
      ensures meals.None? ==> r == Err(StoreFailure)
      ensures meals.Some? ==> r.Ok? && |r.value| == |meals.value|
      ensures meals.Some? ==> forall i :: 0 <= i < |meals.value| ==> r.value[i] == meals.value[i].meal
    {
      if meals.None? {
        return Err(StoreFailure);
      }
      var t := meals.value;
      var list: seq<Meal> := [];
      var i := 0;
      while i < |t|
        invariant 0 <= i <= |t|
        invariant |list| == i
        invariant forall j :: 0 <= j < i ==> list[j] == t[j].meal
      {
        var meal := new DBMeal.Default();
        meal.SetName(t[i].meal.name);
        meal.SetQuantity(t[i].meal.quantity);
        meal.SetPrice(t[i].meal.price);
        list := list + [meal.Value()];
        i := i + 1;
      }
      r := Ok(list);
    }

    /** `delete_mail_by_id`. */
    method DeleteMealById(id: int) returns (r: Result<int>)
      requires Valid()
      modifies this
      ensures Valid()
      ensures (r, meals) == Delete(old(meals), id)
    {
      if meals.None? {
        return Err(StoreFailure);
      }
      WithoutIdKeepsOrder(meals.value, id);
      meals := Some(WithoutId(meals.value, id));
      r := Ok(200);
    }
  }
}
