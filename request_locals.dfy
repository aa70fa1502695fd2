/**
 * The request-locals middleware of the application: it makes sure that
 * `req.locals` holds a numeric `status` and an `alert` object with three
 * message arrays before any route handler runs.
 *
 * JavaScript values are modelled by `JsValue`.  The file runs in sloppy mode,
 * so writing a property of a primitive is silently dropped, while reading a
 * property of `null` or `undefined` throws a TypeError.
 */
module RequestLocals {
  /** The JavaScript values the middleware can meet (numbers are integers here). */
  datatype JsValue =
    | Undefined
    | Null
    | Number(n: int)
    | Str(s: string)
    | Bool(b: bool)
    | Arr(items: seq<JsValue>, props: map<string, JsValue>)
    | Obj(props: map<string, JsValue>)

  /** Values with own properties: objects and arrays. */
  predicate IsObject(v: JsValue)
  {
    v.Arr? || v.Obj?
  }

  predicate IsPrimitive(v: JsValue)
  {
    v.Number? || v.Str? || v.Bool?
  }

  /** `Array.isArray(v)`. */
  predicate IsArray(v: JsValue)
  {
    v.Arr?
  }

  /** `v[key]`; a read on null or undefined throws, so callers rule those out. */
  function Get(v: JsValue, key: string): (r: JsValue)
    requires !v.Undefined? && !v.Null?
  {
    match v
    case Obj(p) => if key in p then p[key] else Undefined
    case Arr(_, p) => if key in p then p[key] else Undefined
    case _ => Undefined
  }

  /** `v[key] = x`; on a primitive the write is dropped. */
  function Put(v: JsValue, key: string, x: JsValue): (r: JsValue)
    requires !v.Undefined? && !v.Null?
    ensures IsObject(v) ==> IsObject(r) && Get(r, key) == x
    ensures IsPrimitive(v) ==> r == v
  {
    match v
    case Obj(p) => Obj(p[key := x])
    case Arr(items, p) => Arr(items, p[key := x])
    case _ => v
  }

  /** A write leaves every other property as it was. */
  lemma PutKeepsOthers(v: JsValue, key: string, x: JsValue)
    requires !v.Undefined? && !v.Null?
    ensures forall k :: k != key ==> Get(Put(v, key, x), k) == Get(v, k)
  {
  }

  /** Writing back the value a property already has changes nothing. */
  lemma PutSame(v: JsValue, key: string)
    requires IsObject(v) && !Get(v, key).Undefined?
    ensures Put(v, key, Get(v, key)) == v
  {
    match v
    case Obj(p) => assert p[key := p[key]] == p;
    case Arr(items, p) => assert p[key := p[key]] == p;
  }

  /** The second of two writes to one property wins. */
  lemma PutTwice(v: JsValue, key: string, x: JsValue, y: JsValue)
    requires !v.Undefined? && !v.Null?
    ensures Put(Put(v, key, x), key, y) == Put(v, key, y)
  {
    match v
    case Obj(p) => assert p[key := x][key := y] == p[key := y];
    case Arr(items, p) => assert p[key := x][key := y] == p[key := y];
    case _ =>
  }

  const EmptyArray: JsValue := Arr([], map[])

  /** The state the middleware leaves `req.locals` in, and whether it threw. */
  datatype Outcome = Outcome(locals: JsValue, thrown: bool)

  /** A message array is replaced by `[]` unless it already is an array (`typeof` undefined is not an array either). */
  function EnsureArray(alert: JsValue, key: string): (r: JsValue)
    requires !alert.Undefined? && !alert.Null?
  {
    if !IsArray(Get(alert, key)) then Put(alert, key, EmptyArray) else alert
  }

  /** The three message arrays of the alert, filled in. */
  function FillMessages(alert: JsValue): (r: JsValue)
    requires !alert.Undefined? && !alert.Null?
  {
    EnsureArray(EnsureArray(EnsureArray(alert, "errorMessages"), "infoMessages"), "successMessages")
  }

  /**
   * `req.locals` after its first three steps: created when undefined, status
   * defaulted to 200 unless it is a number, alert created when undefined.
   * On these values `typeof x === 'undefined'` is `x.Undefined?` and
   * `typeof x !== 'number'` is `!x.Number?`.
   */
  function Defaults(locals: JsValue): (r: JsValue)
    requires !locals.Null?
  {
    var l1 := if locals.Undefined? then Obj(map[]) else locals;
    var l2 := if !Get(l1, "status").Number? then Put(l1, "status", Number(200)) else l1;
    if Get(l2, "alert").Undefined? then Put(l2, "alert", Obj(map[])) else l2
  }

  /** What createVariablesMiddleware does to `req.locals`, as a function of its value before. */
  function Middleware(locals: JsValue): (r: Outcome)
  {
    if locals.Null? then Outcome(locals, true)
    else
      var l3 := Defaults(locals);
      var alert := Get(l3, "alert");
      if alert.Undefined? || alert.Null? then Outcome(l3, true)
      else Outcome(Put(l3, "alert", FillMessages(alert)), false)
  }

  /** The alert holds the three message arrays. */
  predicate HasMessageArrays(alert: JsValue)
    requires !alert.Undefined? && !alert.Null?
  {
    IsArray(Get(alert, "errorMessages")) && IsArray(Get(alert, "infoMessages")) && IsArray(Get(alert, "successMessages"))
  }

  predicate IsMessageKey(key: string)
  {
    key == "errorMessages" || key == "infoMessages" || key == "successMessages"
  }

  // ---------------------------------------------------------------------
  // Properties of the middleware
  // ---------------------------------------------------------------------

  /**
   * Filling in the messages: an object gets the three arrays and keeps its
   * arrays and its other properties; a primitive is left as it is.
   */
  lemma FillMessagesFacts(alert: JsValue)
    requires !alert.Undefined? && !alert.Null?
    ensures IsPrimitive(alert) ==> FillMessages(alert) == alert
    ensures IsObject(alert) ==> IsObject(FillMessages(alert)) && HasMessageArrays(FillMessages(alert))
    ensures forall k :: IsMessageKey(k) ==>
      Get(FillMessages(alert), k) == if IsArray(Get(alert, k)) || IsPrimitive(alert) then Get(alert, k) else EmptyArray
    ensures forall k :: !IsMessageKey(k) ==> Get(FillMessages(alert), k) == Get(alert, k)
    ensures IsObject(alert) && HasMessageArrays(alert) ==> FillMessages(alert) == alert
  {
    PutKeepsOthers(alert, "errorMessages", EmptyArray);
    var a1 := EnsureArray(alert, "errorMessages");
    PutKeepsOthers(a1, "infoMessages", EmptyArray);
    var a2 := EnsureArray(a1, "infoMessages");
    PutKeepsOthers(a2, "successMessages", EmptyArray);
  }

  /** The first three steps: what they set, what they keep, and that they do nothing on a prepared object. */
  lemma DefaultsFacts(locals: JsValue)
    requires !locals.Null?
    ensures IsPrimitive(locals) ==> Defaults(locals) == locals
    ensures !IsPrimitive(locals) ==>
      && IsObject(Defaults(locals))
      && Get(Defaults(locals), "status") == (if locals.Obj? || locals.Arr? then (if Get(locals, "status").Number? then Get(locals, "status") else Number(200)) else Number(200))
      && Get(Defaults(locals), "alert") == (if IsObject(locals) && !Get(locals, "alert").Undefined? then Get(locals, "alert") else Obj(map[]))
      && (forall k :: k != "status" && k != "alert" ==> Get(Defaults(locals), k) == (if IsObject(locals) then Get(locals, k) else Undefined))
    ensures IsObject(locals) && Get(locals, "status").Number? && !Get(locals, "alert").Undefined? ==> Defaults(locals) == locals
  {
    var l1 := if locals.Undefined? then Obj(map[]) else locals;
    PutKeepsOthers(l1, "status", Number(200));
    var l2 := if !Get(l1, "status").Number? then Put(l1, "status", Number(200)) else l1;
    PutKeepsOthers(l2, "alert", Obj(map[]));
  }

  /** It throws exactly when `req.locals` is null or a primitive, or its alert is null. */
  lemma MiddlewareThrowsExactly(locals: JsValue)
    ensures Middleware(locals).thrown <==>
      locals.Null? || IsPrimitive(locals) || (IsObject(locals) && Get(locals, "alert").Null?)
  {
    if !locals.Null? {
      DefaultsFacts(locals);
    }
  }

  /**
   * When `req.locals` is undefined or an object whose alert is undefined or
   * an object, afterwards locals is an object with a numeric status and an
   * alert object holding the three arrays.
   */
  lemma MiddlewareEstablishesShape(locals: JsValue)
    requires locals.Undefined? || (IsObject(locals) && (Get(locals, "alert").Undefined? || IsObject(Get(locals, "alert"))))
    ensures var r := Middleware(locals);
      && !r.thrown
      && IsObject(r.locals)
      && Get(r.locals, "status").Number?
      && IsObject(Get(r.locals, "alert"))
      && HasMessageArrays(Get(r.locals, "alert"))
  {
    DefaultsFacts(locals);
    var l3 := Defaults(locals);
    var alert := Get(l3, "alert");
    FillMessagesFacts(alert);
    PutKeepsOthers(l3, "alert", FillMessages(alert));
  }

  /** A numeric status is kept and anything else becomes 200; the other properties of `req.locals` are kept. */
  lemma MiddlewareKeepsStatus(locals: JsValue)
    requires IsObject(locals) && !Middleware(locals).thrown
    ensures Get(Middleware(locals).locals, "status") ==
      if Get(locals, "status").Number? then Get(locals, "status") else Number(200)
    ensures forall k :: k != "status" && k != "alert" ==> Get(Middleware(locals).locals, k) == Get(locals, k)
  {
    DefaultsFacts(locals);
    var l3 := Defaults(locals);
    PutKeepsOthers(l3, "alert", FillMessages(Get(l3, "alert")));
  }

  /**
   * An existing alert object is kept: its message arrays and its other
   * properties are unchanged, and only missing or non-array messages become [].
   */
  lemma MiddlewareKeepsAlert(locals: JsValue)
    requires IsObject(locals) && IsObject(Get(locals, "alert"))
    ensures var before := Get(locals, "alert");
      var after := Get(Middleware(locals).locals, "alert");
      && IsObject(after)
      && (forall k :: IsMessageKey(k) ==> Get(after, k) == if IsArray(Get(before, k)) then Get(before, k) else EmptyArray)
      && (forall k :: !IsMessageKey(k) ==> Get(after, k) == Get(before, k))
  {
    DefaultsFacts(locals);
    var l3 := Defaults(locals);
    assert Get(l3, "alert") == Get(locals, "alert");
    FillMessagesFacts(Get(l3, "alert"));
  }

  /** A prepared `req.locals`: an object with a numeric status and an alert the message step leaves alone. */
  predicate Prepared(locals: JsValue)
  {
    && IsObject(locals)
    && Get(locals, "status").Number?
    && !Get(locals, "alert").Undefined? && !Get(locals, "alert").Null?
    && FillMessages(Get(locals, "alert")) == Get(locals, "alert")
  }

  /** The middleware leaves a prepared `req.locals` exactly as it is. */
  lemma PreparedIsFixed(locals: JsValue)
    requires Prepared(locals)
    ensures Middleware(locals) == Outcome(locals, false)
  {
    DefaultsFacts(locals);
    PutSame(locals, "alert");
  }

  /** Whatever the middleware returns without throwing is prepared. */
  lemma MiddlewarePrepares(locals: JsValue)
    requires !Middleware(locals).thrown
    ensures Prepared(Middleware(locals).locals)
  {
    DefaultsFacts(locals);
    var l3 := Defaults(locals);
    var alert := Get(l3, "alert");
    FillMessagesFacts(alert);
    var fill := FillMessages(alert);
    FillMessagesFacts(fill);
    PutKeepsOthers(l3, "alert", fill);
  }

  /** Running the middleware on its own result changes nothing. */
  lemma MiddlewareIdempotent(locals: JsValue)
    requires !Middleware(locals).thrown
    ensures Middleware(Middleware(locals).locals) == Middleware(locals)
  {
    MiddlewarePrepares(locals);
    PreparedIsFixed(Middleware(locals).locals);
  }

  /** The incoming request, as far as the middleware sees it. */
  class Request {
    var locals: JsValue
    /** How many times the middleware has handed the request on with `next()`. */
    var nextCalls: nat

    constructor (locals: JsValue)
      ensures this.locals == locals && nextCalls == 0
    {
      this.locals := locals;
      nextCalls := 0;
    }

    /**
     * One of the three message checks: `req.locals.alert[key] = []` unless it
     * already is an array.  The alert is written back into `req.locals`,
     * which is how an in-place change of the shared alert object shows in
     * this value model.
     */
    method EnsureMessageArray(key: string)
      requires IsObject(locals) && !Get(locals, "alert").Undefined? && !Get(locals, "alert").Null?
      modifies this`locals
      ensures IsObject(locals) && !Get(locals, "alert").Undefined? && !Get(locals, "alert").Null?
      ensures locals == Put(old(locals), "alert", EnsureArray(Get(old(locals), "alert"), key))
    {
      var alert := Get(locals, "alert");
      if !IsArray(Get(alert, key)) {
        alert := Put(alert, key, EmptyArray);
        locals := Put(locals, "alert", alert);
      } else {
        PutSame(locals, "alert");
      }
    }

    /** createVariablesMiddleware(req, res, next). */
    method CreateVariablesMiddleware() returns (thrown: bool)
      modifies this
      ensures locals == Middleware(old(locals)).locals
      ensures thrown == Middleware(old(locals)).thrown
      ensures nextCalls == if thrown then old(nextCalls) else old(nextCalls) + 1
    {
      if locals.Undefined? {
        locals := Obj(map[]);
      }
      if locals.Null? {
        return true;
      }
      if !Get(locals, "status").Number? {
        locals := Put(locals, "status", Number(200));
      }
      if Get(locals, "alert").Undefined? {
        locals := Put(locals, "alert", Obj(map[]));
      }
      ghost var l3 := locals;
      assert l3 == Defaults(old(locals));
      if Get(locals, "alert").Undefined? || Get(locals, "alert").Null? {
        return true;
      }
      ghost var a0 := Get(locals, "alert");
      EnsureMessageArray("errorMessages");
      ghost var a1 := EnsureArray(a0, "errorMessages");
      EnsureMessageArray("infoMessages");
      PutTwice(l3, "alert", a1, EnsureArray(a1, "infoMessages"));
      ghost var a2 := EnsureArray(a1, "infoMessages");
      EnsureMessageArray("successMessages");
      PutTwice(l3, "alert", a2, EnsureArray(a2, "successMessages"));
      nextCalls := nextCalls + 1;
      return false;
    }
  }
}
