/**
 * The HTTP front end (`Routes`): a rate limiter per request URL, consulted before every store call, and the
 * status and body each of the five meal routes answers with.
 *
 * The limiter registry is keyed by the raw URL alone, so the routes that share a URL (POST and GET on
 * `/meals`, GET and DELETE on `/meals/<int>`) share one limiter. Each route is a method of `Routes`; what it
 * answers once the limiter has admitted it is a function of the table state (`PostResult`, `GetAllResult`,
 * `GetByIdResult`, `GetByNameResult`, `DeleteResult`), and the lemmas below are about those functions.
 */
module Server {
  import opened Common
  import opened Meals
  import opened RateLimit
  import opened Database
  import Utility

  /** The JSON values the routes write. `JErrorText` stands for the text of a caught exception and records which failure was raised. */
  datatype Json =
    | JString(text: string)
    | JInt(number: int)
    | JObject(members: seq<(string, Json)>)
    | JArray(items: seq<Json>)
    | JErrorText(kind: ErrorKind)

  datatype Body = NoBody | Text(text: string) | JsonBody(json: Json)

  datatype Response = Response(status: int, body: Body)

  /**
   * A POST body as `crow::json::load` leaves it: unparseable, or an object whose three fields are None when
   * missing or of the wrong type (reading such a field throws).
   */
  datatype PostBody = Unparseable | Parsed(name: Option<string>, quantity: Option<int>, price: Option<string>)

  const DatabaseFile := "database.db3"

  const TooManyRequests := Response(429, NoBody)

  /** The conversion of the 64-bit integer a JSON number reads as to the 32-bit `int` a meal holds (modulo 2^32). */
  function ToInt32(x: int): (r: int)
    ensures -0x8000_0000 <= r < 0x8000_0000
    ensures (x - r) % 0x1_0000_0000 == 0
    ensures -0x8000_0000 <= x < 0x8000_0000 ==> r == x
  {
    (x + 0x8000_0000) % 0x1_0000_0000 - 0x8000_0000
  }

  /** `{"name": ..., "quantity": ..., "price": ...}` for one meal. */
  function MealObject(m: Meal): Json
  {
    JObject([("name", JString(m.name)), ("quantity", JInt(m.quantity)), ("price", JString(m.price))])
  }

  /** A 500 answer: a one-member object holding the failure under `key`. */
  function ErrorResponse(key: string, kind: ErrorKind): Response
  {
    Response(500, JsonBody(JObject([(key, JErrorText(kind))])))
  }

  /** The meal a parsed POST body describes, None when reading one of its fields throws. */
  function BodyMeal(name: Option<string>, quantity: Option<int>, price: Option<string>): Option<Meal>
  {
    if name.Some? && quantity.Some? && price.Some? then Some(Meal(name.value, ToInt32(quantity.value), price.value))
    else None
  }

  /** POST /meals once admitted: the answer and the table it leaves. */
  function PostResult(st: Option<Table>, body: PostBody): (Response, Option<Table>)
  {
    if body.Unparseable? then (Response(400, Text("Invalid JSON")), st)
    else
      var m := BodyMeal(body.name, body.quantity, body.price);
      if m.None? then (ErrorResponse("message", BadRequestBody), st)
      else
        var (outcome, st') := Create(st, m.value);
        if outcome.Pass? then (Response(200, NoBody), st') else (ErrorResponse("message", outcome.kind), st')
  }

  /** GET /meals once admitted. */
  function GetAllResult(st: Option<Table>): Response
  {
    if st.None? then ErrorResponse("message", StoreFailure)
    else
      var t := st.value;
      Response(200, JsonBody(JArray(seq(|t|, i requires 0 <= i < |t| => MealObject(t[i].meal)))))
  }

  /** GET /meals/<int> once admitted. */
  function GetByIdResult(st: Option<Table>, id: int): Response
  {
    var r := LookupId(st, id);
    if r.Ok? then Response(200, JsonBody(MealObject(r.value))) else ErrorResponse("message", r.kind)
  }

  /** GET /meals/<string> once admitted twice, for the name as decoded. */
  function GetByNameResult(st: Option<Table>, name: string): Response
  {
    var r := LookupName(st, name);
    if r.Ok? then Response(200, JsonBody(MealObject(r.value))) else ErrorResponse("error", r.kind)
  }

  /** DELETE /meals/<int> once admitted: the store's status is both the HTTP status and the `"status"` member. */
  function DeleteResult(st: Option<Table>, id: int): (Response, Option<Table>)
  {
    var (r, st') := Delete(st, id);
    if r.Ok? then (Response(r.value, JsonBody(JObject([("status", JInt(r.value))]))), st')
    else (ErrorResponse("error", r.kind), st')
  }

  /** The two limiter checks of GET /meals/<string>: the second is made only when the first admits. */
  function TwoChecks(w: seq<int>, now1: int, now2: int): Decision
  {
    var d := Step(w, now1);
    if d.admitted then Step(d.queue, now2) else d
  }

  /** The window a URL's limiter holds; a URL seen for the first time gets an empty one. */
  function Window(ws: map<string, seq<int>>, url: string): seq<int>
  {
    if url in ws then ws[url] else []
  }

  /** A second update of the same key overrides the first. */
  lemma UpdateTwice(ws: map<string, seq<int>>, url: string, a: seq<int>, b: seq<int>)
    ensures ws[url := a][url := b] == ws[url := b]
  {
  }

  /** A map that differs from another at most at `url` is that map updated at `url`. */
  lemma UpdatedAt(before: map<string, seq<int>>, after: map<string, seq<int>>, url: string)
    requires after.Keys == before.Keys && url in after
    requires forall u :: u in after && u != url ==> after[u] == before[u]
    ensures after == before[url := after[url]]
  {
  }

  // ---- properties of the answers

  /** POST answers 400 exactly for an unparseable body, 200 exactly when a meal of a new name was stored, and otherwise 500. */
  lemma PostOutcomes(st: Option<Table>, body: PostBody)
    requires st.Some? ==> IdsAscending(st.value)
    ensures PostResult(st, body).0.status in {200, 400, 500}
    ensures PostResult(st, body).0.status == 400 <==> body.Unparseable?
    ensures PostResult(st, body).0.status != 200 ==> PostResult(st, body).1 == st
    ensures PostResult(st, body).0.status == 200 <==>
      && body.Parsed? && body.name.Some? && body.quantity.Some? && body.price.Some? && st.Some?
      && forall i :: 0 <= i < |st.value| ==> st.value[i].meal.name != body.name.value
    ensures PostResult(st, body).0.status == 200 ==>
      var m := Meal(body.name.value, ToInt32(body.quantity.value), body.price.value);
      && LookupName(PostResult(st, body).1, m.name) == Ok(AsText(m))
      && PostResult(st, body).1.value[..|st.value|] == st.value
      && |PostResult(st, body).1.value| == |st.value| + 1
  {
    if body.Parsed? {
      var m := BodyMeal(body.name, body.quantity, body.price);
      if m.Some? {
        CreateOutcome(st, m.value);
        if Create(st, m.value).0 == Pass {
          CreateThenLookup(st, m.value);
        }
      }
    }
  }

  /** A second POST of the same name is refused with 500 carrying the `AlreadyExists` kind, and changes nothing. */
  lemma PostTwiceRefused(st: Option<Table>, body: PostBody, body': PostBody)
    requires st.Some? ==> IdsAscending(st.value)
    requires PostResult(st, body).0.status == 200
    requires body'.Parsed? && body'.name == body.name && body'.quantity.Some? && body'.price.Some?
    ensures PostResult(PostResult(st, body).1, body') == (ErrorResponse("message", AlreadyExists), PostResult(st, body).1)
  {
    PostOutcomes(st, body);
    var m := BodyMeal(body.name, body.quantity, body.price).value;
    var m' := BodyMeal(body'.name, body'.quantity, body'.price).value;
    CreateTwiceFails(st, m, m');
  }

  /** GET /meals lists every stored meal in store order; a meal just posted comes last. */
  lemma ListAfterPost(st: Option<Table>, body: PostBody)
    requires st.Some? ==> IdsAscending(st.value)
    requires PostResult(st, body).0.status == 200
    ensures GetAllResult(PostResult(st, body).1).status == 200
    ensures
      var items := GetAllResult(PostResult(st, body).1).body.json.items;
      && |items| == |GetAllResult(st).body.json.items| + 1
      && items[..|items| - 1] == GetAllResult(st).body.json.items
      && items[|items| - 1] == MealObject(Meal(body.name.value, ToInt32(body.quantity.value), body.price.value))
  {
    PostOutcomes(st, body);
    var t, t' := st.value, PostResult(st, body).1.value;
    var items := GetAllResult(Some(t')).body.json.items;
    var before := GetAllResult(Some(t)).body.json.items;
    CreateOutcome(st, Meal(body.name.value, ToInt32(body.quantity.value), body.price.value));
    assert forall i :: 0 <= i < |t| ==> t'[i] == t[i] by {
      forall i | 0 <= i < |t| ensures t'[i] == t[i] {
        assert t'[..|t|][i] == t'[i];
      }
    }
    assert items[..|items| - 1] == before;
  }

  /**
   * After a successful POST, GET by that name answers 200 with the meal posted, its name and price cut at
   * their first zero byte as `getText()` reads them; without a zero byte that is the meal posted.
   */
  lemma PostThenGetByName(st: Option<Table>, body: PostBody)
    requires st.Some? ==> IdsAscending(st.value)
    requires PostResult(st, body).0.status == 200
    ensures GetByNameResult(PostResult(st, body).1, body.name.value)
      == Response(200, JsonBody(MealObject(AsText(Meal(body.name.value, ToInt32(body.quantity.value), body.price.value)))))
    ensures '\0' !in body.name.value && '\0' !in body.price.value ==>
      GetByNameResult(PostResult(st, body).1, body.name.value)
      == Response(200, JsonBody(MealObject(Meal(body.name.value, ToInt32(body.quantity.value), body.price.value))))
  {
    PostOutcomes(st, body);
  }

  /**
   * A price posted with a zero byte in it: GET by id answers it whole, GET by name answers only the part
   * before the zero byte.
   */
  lemma ZeroBytePriceCutByName()
    ensures
      var body := Parsed(Some("Taco"), Some(3), Some("5\0.99"));
      var st' := PostResult(Some([]), body).1;
      && PostResult(Some([]), body).0.status == 200
      && GetByIdResult(st', 1) == Response(200, JsonBody(MealObject(Meal("Taco", 3, "5\0.99"))))
      && GetByNameResult(st', "Taco") == Response(200, JsonBody(MealObject(Meal("Taco", 3, "5"))))
  {
    var body := Parsed(Some("Taco"), Some(3), Some("5\0.99"));
    var m := Meal("Taco", 3, "5\0.99");
    assert ToInt32(3) == 3;
    assert BodyMeal(body.name, body.quantity, body.price) == Some(m);
    assert FirstNamed([], "Taco").None?;
    var empty: Table := [];
    assert NextId(empty) == 1 && empty + [Row(1, m)] == [Row(1, m)];
    assert Create(Some([]), m) == (Pass, Some([Row(1, m)]));
    var st' := PostResult(Some([]), body).1;
    assert FirstWithId([Row(1, m)], 1) == Some(0);
    assert FirstNamed([Row(1, m)], "Taco") == Some(0);
    assert CString("5\0.99") == "5";
    assert CString("Taco") == "Taco";
  }

  /** After a successful POST, GET by the id SQLite gave the new row answers 200 with the meal posted. */
  lemma PostThenGetById(st: Option<Table>, body: PostBody)
    requires st.Some? ==> IdsAscending(st.value)
    requires PostResult(st, body).0.status == 200
    ensures GetByIdResult(PostResult(st, body).1, NextId(st.value))
      == Response(200, JsonBody(MealObject(Meal(body.name.value, ToInt32(body.quantity.value), body.price.value))))
  {
    PostOutcomes(st, body);
    var m := Meal(body.name.value, ToInt32(body.quantity.value), body.price.value);
    var t := st.value;
    assert PostResult(st, body).1.value == t + [Row(NextId(t), m)];
    LastRowFoundById(t, Row(NextId(t), m));
  }

  /** A row appended under an id above all others is the first row with that id. */
  lemma {:induction false} LastRowFoundById(t: Table, row: Row)
    requires forall j :: 0 <= j < |t| ==> t[j].id < row.id
    ensures FirstWithId(t + [row], row.id) == Some(|t|)
  {
    if t != [] {
      assert (t + [row])[1..] == t[1..] + [row];
      LastRowFoundById(t[1..], row);
    }
  }

  /**
   * The id in the URL is narrowed to 32 bits before it reaches the store, so ids 2^32 apart reach the
   * same row: DELETE /meals/4294967297 deletes row 1.
   */
  lemma WideIdsAlias(st: Option<Table>, urlId: int)
    ensures ToInt32(urlId + 0x1_0000_0000) == ToInt32(urlId)
    ensures GetByIdResult(st, ToInt32(urlId + 0x1_0000_0000)) == GetByIdResult(st, ToInt32(urlId))
    ensures DeleteResult(st, ToInt32(urlId + 0x1_0000_0000)) == DeleteResult(st, ToInt32(urlId))
    ensures ToInt32(0x1_0000_0001) == 1
  {
    var a, b := ToInt32(urlId + 0x1_0000_0000), ToInt32(urlId);
    assert (a - b) % 0x1_0000_0000 == 0;
  }

  /** A store failure is answered 500 with the text under "message" on POST, GET all and GET by id, and under "error" on GET by name and DELETE. */
  lemma ErrorKeys(st: Option<Table>, body: PostBody, id: int, name: string)
    ensures PostResult(st, body).0.status == 500 ==>
      exists k :: PostResult(st, body).0 == ErrorResponse("message", k)
    ensures GetAllResult(st).status == 500 ==> GetAllResult(st) == ErrorResponse("message", StoreFailure)
    ensures GetByIdResult(st, id).status == 500 ==> exists k :: GetByIdResult(st, id) == ErrorResponse("message", k)
    ensures GetByNameResult(st, name).status == 500 ==> exists k :: GetByNameResult(st, name) == ErrorResponse("error", k)
    ensures DeleteResult(st, id).0.status == 500 ==> DeleteResult(st, id).0 == ErrorResponse("error", StoreFailure)
  {
    if PostResult(st, body).0.status == 500 {
      var m := BodyMeal(body.name, body.quantity, body.price);
      if m.None? {
        assert PostResult(st, body).0 == ErrorResponse("message", BadRequestBody);
      } else {
        assert PostResult(st, body).0 == ErrorResponse("message", Create(st, m.value).0.kind);
      }
    }
    if GetByIdResult(st, id).status == 500 {
      assert GetByIdResult(st, id) == ErrorResponse("message", LookupId(st, id).kind);
    }
    if GetByNameResult(st, name).status == 500 {
      assert GetByNameResult(st, name) == ErrorResponse("error", LookupName(st, name).kind);
    }
  }

  /** DELETE answers 200 with `{"status": 200}` whenever the table exists, and again 200 when repeated; GET by that id then fails with the `NotFound` kind. */
  lemma DeleteAnswers(st: Option<Table>, id: int)
    ensures st.None? ==> DeleteResult(st, id) == (ErrorResponse("error", StoreFailure), st)
    ensures st.Some? ==> DeleteResult(st, id).0 == Response(200, JsonBody(JObject([("status", JInt(200))])))
    ensures st.Some? ==> DeleteResult(DeleteResult(st, id).1, id) == DeleteResult(st, id)
    ensures st.Some? ==> GetByIdResult(DeleteResult(st, id).1, id) == ErrorResponse("message", NotFound)
  {
    if st.Some? {
      DeleteOutcome(st, id);
    }
  }

  /** GET by name spends two slots of its URL's window when both checks admit; under the burst size both do. */
  lemma NameLookupTakesTwoSlots(w: seq<int>, now1: int, now2: int)
    requires |w| + 2 <= MaxBurst
    ensures TwoChecks(w, now1, now2) == Decision(w + [now1, now2], true)
  {
    assert w + [now1] + [now2] == w + [now1, now2];
  }

  /** With nine entries in the window, GET by name can be refused by its second check after the first has taken the tenth slot. */
  lemma NameLookupRefusedAfterFirstSlot(w: seq<int>, now1: int, now2: int)
    requires |w| == MaxBurst - 1 && w != [] && now2 - w[0] < 2 * TicksPerSecond
    ensures Step(w, now1).admitted
    ensures TwoChecks(w, now1, now2) == Decision(w + [now1], false)
  {
    var q := Step(w, now1).queue;
    assert q[0] == w[0];
    StepWhenFull(q, now2);
  }

  /** The server: the limiter registry and the meal store. */
  class Routes {
    /** `rateLimiter`: one limiter per raw request URL. */
    var rateLimiter: map<string, Limiter>
    var db: MealTable
    /** The file the store was opened from. */
    const dbPath: string

    ghost predicate Valid()
      reads this, db, rateLimiter.Values
    {
      && db.Valid()
      && (forall u :: u in rateLimiter ==> rateLimiter[u].Valid())
      && (forall u, v :: u in rateLimiter && v in rateLimiter && u != v ==> rateLimiter[u] != rateLimiter[v])
    }

    /** The window of every URL seen so far. */
    ghost function Windows(): map<string, seq<int>>
      reads this, rateLimiter.Values
    {
      map u | u in rateLimiter :: rateLimiter[u].requests
    }

    /**
     * `Routes(app)`: open the store in the temporary folder (TEMP, TMP or the working directory), seeding it
     * from `seedLines` when the file exists and the table does not; `persisted` is the table the file already holds.
     */
    constructor (temp: Option<string>, tmp: Option<string>, persisted: Option<Table>, seedLines: Option<seq<string>>)
      requires persisted.Some? ==> IdsAscending(persisted.value)
      requires persisted.None? && seedLines.Some? ==>
        forall k :: 0 <= k < |seedLines.value| ==> SeedLineOk(seedLines.value[k])
      ensures Valid() && Windows() == map[]
      ensures dbPath == Utility.TemporaryFolder(temp, tmp, DatabaseFile)
      ensures db.meals == if persisted.None? && seedLines.Some? then Some(SeedTable(seedLines.value)) else persisted
    {
      dbPath := Utility.TemporaryFolder(temp, tmp, DatabaseFile);
      db := new MealTable(persisted, seedLines);
      rateLimiter := map[];
    }

    /** `rateLimiter[url]`: the URL's limiter, inserting a fresh one on first use. */
    method LimiterFor(url: string) returns (l: Limiter)
      requires Valid()
      modifies this
      ensures Valid() && db == old(db)
      ensures url in rateLimiter && rateLimiter[url] == l
      ensures url in old(rateLimiter) ==> rateLimiter == old(rateLimiter)
      ensures url !in old(rateLimiter) ==> fresh(l) && rateLimiter == old(rateLimiter)[url := l]
      ensures forall k :: k in rateLimiter.Values ==> k in old(rateLimiter.Values) || fresh(k)
      ensures Windows() == old(Windows())[url := Window(old(Windows()), url)]
    {
      if url in rateLimiter {
        l := rateLimiter[url];
      } else {
        l := new Limiter();
        rateLimiter := rateLimiter[url := l];
      }
    }

    /** `rateLimiter[url].allow_request()`: only that URL's window moves. */
    method Admit(url: string, now: int) returns (admitted: bool)
      requires Valid()
      modifies this, rateLimiter.Values
      ensures Valid() && db == old(db) && db.meals == old(db.meals)
      ensures forall k :: k in rateLimiter.Values ==> k in old(rateLimiter.Values) || fresh(k)
      ensures admitted == Step(Window(old(Windows()), url), now).admitted
      ensures Windows() == old(Windows())[url := Step(Window(old(Windows()), url), now).queue]
    {
      var l := LimiterFor(url);
      ghost var before := Windows();
      assert before[url] == l.requests == Window(old(Windows()), url);
      admitted := l.AllowRequest(now);
      assert forall u :: u in rateLimiter && u != url ==> rateLimiter[u] != l;
      ghost var after := Windows();
      assert after.Keys == before.Keys;
      UpdatedAt(before, after, url);
      UpdateTwice(old(Windows()), url, Window(old(Windows()), url), after[url]);
    }

    /** POST /meals. */
    method PostMeals(url: string, body: PostBody, now: int) returns (resp: Response)
      requires Valid()
      modifies this, rateLimiter.Values, db
      ensures Valid() && db == old(db)
      ensures Windows() == old(Windows())[url := Step(Window(old(Windows()), url), now).queue]
      ensures !Step(Window(old(Windows()), url), now).admitted ==> resp == TooManyRequests && db.meals == old(db.meals)
      ensures Step(Window(old(Windows()), url), now).admitted ==> (resp, db.meals) == PostResult(old(db.meals), body)
    {
      var admitted := Admit(url, now);
      if !admitted {
        return TooManyRequests;
      }
      ghost var ws := Windows();
      resp := InsertFromBody(body);
      assert Windows() == ws;
    }

    /** The admitted part of POST /meals: fill a `DBMeal` from the body's fields and insert it. */
    method InsertFromBody(body: PostBody) returns (resp: Response)
      requires db.Valid()
      modifies db
      ensures db.Valid()
      ensures (resp, db.meals) == PostResult(old(db.meals), body)
    {
      if body.Unparseable? {
        return Response(400, Text("Invalid JSON"));
      }
      var meal := new DBMeal.Default();
      if body.name.None? {
        return ErrorResponse("message", BadRequestBody);
      }
      meal.SetName(body.name.value);
      if body.quantity.None? {
        return ErrorResponse("message", BadRequestBody);
      }
      meal.SetQuantity(ToInt32(body.quantity.value));
      if body.price.None? {
        return ErrorResponse("message", BadRequestBody);
      }
      meal.SetPrice(body.price.value);
      var outcome := db.CreateNewMeal(meal);
      if outcome.Fail? {
        return ErrorResponse("message", outcome.kind);
      }
      resp := Response(200, NoBody);
    }

    /** GET /meals. */
    method GetAllMeals(url: string, now: int) returns (resp: Response)
      requires Valid()
      modifies this, rateLimiter.Values
      ensures Valid() && db == old(db) && db.meals == old(db.meals)
      ensures Windows() == old(Windows())[url := Step(Window(old(Windows()), url), now).queue]
      ensures resp == if Step(Window(old(Windows()), url), now).admitted then GetAllResult(db.meals) else TooManyRequests
    {
      var admitted := Admit(url, now);
      if !admitted {
        return TooManyRequests;
      }
      var meals := db.GetAllMeals();
      if meals.Err? {
        return ErrorResponse("message", meals.kind);
      }
      var items: seq<Json> := [];
      for i := 0 to |meals.value|
        invariant |items| == i
        invariant forall j :: 0 <= j < i ==> items[j] == MealObject(meals.value[j])
      {
        items := items + [MealObject(meals.value[i])];
      }
      ghost var t := db.meals.value;
      assert items == seq(|t|, i requires 0 <= i < |t| => MealObject(t[i].meal));
      resp := Response(200, JsonBody(JArray(items)));
    }

    /** GET /meals/<int>; `urlId` is the 64-bit integer read from the URL, narrowed to the handler's `int`. */
    method GetMealById(url: string, urlId: int, now: int) returns (resp: Response)
      requires Valid()
      modifies this, rateLimiter.Values
      ensures Valid() && db == old(db) && db.meals == old(db.meals)
      ensures Windows() == old(Windows())[url := Step(Window(old(Windows()), url), now).queue]
      ensures resp == if Step(Window(old(Windows()), url), now).admitted
        then GetByIdResult(db.meals, ToInt32(urlId)) else TooManyRequests
    {
      var admitted := Admit(url, now);
      if !admitted {
        return TooManyRequests;
      }
      var id := ToInt32(urlId);
      var meal := db.GetMealById(id);
      if meal.Err? {
        return ErrorResponse("message", meal.kind);
      }
      resp := Response(200, JsonBody(MealObject(meal.value)));
    }

    /** GET /meals/<string>: check, decode the name, check again, look up. */
    method GetMealByName(url: string, name: string, now1: int, now2: int) returns (resp: Response)
      requires Valid()
      requires Utility.DecodeTerminates(Utility.SpacesForPlus(name))
      modifies this, rateLimiter.Values
      ensures Valid() && db == old(db) && db.meals == old(db.meals)
      ensures Windows() == old(Windows())[url := TwoChecks(Window(old(Windows()), url), now1, now2).queue]
      ensures resp == if TwoChecks(Window(old(Windows()), url), now1, now2).admitted
        then GetByNameResult(db.meals, Utility.Unescaped(name)) else TooManyRequests
    {
      ghost var ws := Windows();
      ghost var d1 := Step(Window(ws, url), now1);
      var admitted := Admit(url, now1);
      if !admitted {
        return TooManyRequests;
      }
      resp := DecodeCheckAndLookUp(url, name, now2);
      ghost var d2 := Step(d1.queue, now2);
      UpdateTwice(ws, url, d1.queue, d2.queue);
    }

    /** The rest of GET /meals/<string> after the first limiter check: decode the name, check again, look up. */
    method DecodeCheckAndLookUp(url: string, name: string, now: int) returns (resp: Response)
      requires Valid()
      requires Utility.DecodeTerminates(Utility.SpacesForPlus(name))
      modifies this, rateLimiter.Values
      ensures Valid() && db == old(db) && db.meals == old(db.meals)
      ensures Windows() == old(Windows())[url := Step(Window(old(Windows()), url), now).queue]
      ensures resp == if Step(Window(old(Windows()), url), now).admitted
        then GetByNameResult(db.meals, Utility.Unescaped(name)) else TooManyRequests
    {
      var decoded := Utility.UnescapePostData(name);
      var admitted := Admit(url, now);
      if !admitted {
        return TooManyRequests;
      }
      var meal := db.GetMealByName(decoded);
      if meal.Err? {
        return ErrorResponse("error", meal.kind);
      }
      resp := Response(200, JsonBody(MealObject(meal.value)));
    }

    /** DELETE /meals/<int>; `urlId` is narrowed to the handler's `int` as in GET /meals/<int>. */
    method DeleteMeal(url: string, urlId: int, now: int) returns (resp: Response)
      requires Valid()
      modifies this, rateLimiter.Values, db
      ensures Valid() && db == old(db)
      ensures Windows() == old(Windows())[url := Step(Window(old(Windows()), url), now).queue]
      ensures !Step(Window(old(Windows()), url), now).admitted ==> resp == TooManyRequests && db.meals == old(db.meals)
      ensures Step(Window(old(Windows()), url), now).admitted ==>
        (resp, db.meals) == DeleteResult(old(db.meals), ToInt32(urlId))
    {
      var admitted := Admit(url, now);
      if !admitted {
        return TooManyRequests;
      }
      var id := ToInt32(urlId);
      var status := db.DeleteMealById(id);
      if status.Err? {
        return ErrorResponse("error", status.kind);
      }
      resp := Response(status.value, JsonBody(JObject([("status", JInt(status.value))])));
    }
  }
}
