/**
  The options of the gentleSelect plugin and its validator `hasError`:
  eight guards checked in order, the first one that fires raising its
  error with `$.error`.
 */
module GentleOptions {
  import opened Results

  /** A JavaScript value as far as the guards look at it; `Obj` is any object or function. */
  datatype JsValue = Undefined | Num(n: int) | Str(s: string) | Bool(b: bool) | Obj

  function TypeOf(x: JsValue): string {
    match x
    case Undefined => "undefined"
    case Num(_) => "number"
    case Str(_) => "string"
    case Bool(_) => "boolean"
    case Obj => "object"
  }

  predicate Defined(x: JsValue) {
    TypeOf(x) != "undefined"
  }

  /** `x != lit` for a string literal: only a string with that text compares equal. */
  predicate LooseNe(x: JsValue, lit: string) {
    !(x.Str? && x.s == lit)
  }

  datatype Config = Config(
    minWidth: JsValue,
    itemWidth: JsValue,
    columns: JsValue,
    rows: JsValue,
    title: JsValue,
    prompt: string,
    maxDisplay: int,
    openSpeed: JsValue,
    closeSpeed: JsValue,
    openEffect: JsValue,
    closeEffect: JsValue,
    hideOnMouseOut: JsValue)

  /** The plugin's `defaults`. */
  const Defaults: Config := Config(Num(100), Undefined, Undefined, Undefined, Undefined,
                                   "Make A Selection", 0, Num(400), Num(400),
                                   Str("slide"), Str("slide"), Bool(true))

  /** The eight errors of `hasError`, in the order they are checked. */
  datatype ConfigError =
    | BothRowsAndColumns
    | ColumnsWithoutItemWidth
    | RowsWithoutItemWidth
    | BadOpenSpeed
    | BadCloseSpeed
    | BadOpenEffect
    | BadCloseEffect
    | BadHideOnMouseOut

  function Rank(e: ConfigError): nat {
    match e
    case BothRowsAndColumns => 0
    case ColumnsWithoutItemWidth => 1
    case RowsWithoutItemWidth => 2
    case BadOpenSpeed => 3
    case BadCloseSpeed => 4
    case BadOpenEffect => 5
    case BadCloseEffect => 6
    case BadHideOnMouseOut => 7
  }

  // The guards as written in `hasError`.

  predicate SpeedRejected(x: JsValue) {
    !Defined(x) || (TypeOf(x) != "number" && (TypeOf(x) == "string" && (LooseNe(x, "slow") && LooseNe(x, "fast"))))
  }

  predicate EffectRejected(x: JsValue) {
    !Defined(x) || (LooseNe(x, "fade") && LooseNe(x, "slide"))
  }

  predicate FlagRejected(x: JsValue) {
    !Defined(x) || TypeOf(x) != "boolean"
  }

  /** `hasError`: the first guard that fires, or `None` when the options are usable. */
  function CheckOptions(o: Config): (r: Option<ConfigError>)
    ensures r.None? <==> forall e :: !Violates(o, e)
    ensures r.Some? ==> Violates(o, r.value) && forall e :: Rank(e) < Rank(r.value) ==> !Violates(o, e)
  {
    GuardsAgree(o.columns); GuardsAgree(o.rows); GuardsAgree(o.itemWidth);
    GuardsAgree(o.openSpeed); GuardsAgree(o.closeSpeed); GuardsAgree(o.openEffect);
    GuardsAgree(o.closeEffect); GuardsAgree(o.hideOnMouseOut);
    if Defined(o.columns) && Defined(o.rows) then
      assert Violates(o, BothRowsAndColumns);
      Some(BothRowsAndColumns)
    else if Defined(o.columns) && !Defined(o.itemWidth) then
      assert Violates(o, ColumnsWithoutItemWidth);
      Some(ColumnsWithoutItemWidth)
    else if Defined(o.rows) && !Defined(o.itemWidth) then
      assert Violates(o, RowsWithoutItemWidth);
      Some(RowsWithoutItemWidth)
    else if SpeedRejected(o.openSpeed) then
      assert Violates(o, BadOpenSpeed);
      Some(BadOpenSpeed)
    else if SpeedRejected(o.closeSpeed) then
      assert Violates(o, BadCloseSpeed);
      Some(BadCloseSpeed)
    else if EffectRejected(o.openEffect) then
      assert Violates(o, BadOpenEffect);
      Some(BadOpenEffect)
    else if EffectRejected(o.closeEffect) then
      assert Violates(o, BadCloseEffect);
      Some(BadCloseEffect)
    else if FlagRejected(o.hideOnMouseOut) then
      assert Violates(o, BadHideOnMouseOut);
      Some(BadHideOnMouseOut)
    else None
  }

  // The same rules stated as what each option may be.

  /** A usable speed: anything defined except a string other than "slow" or "fast". */
  predicate SpeedOk(x: JsValue) {
    match x
    case Undefined => false
    case Str(s) => s == "slow" || s == "fast"
    case _ => true
  }

  predicate EffectOk(x: JsValue) {
    x == Str("fade") || x == Str("slide")
  }

  /** Each guard of `hasError` rejects exactly the values its rule forbids. */
  lemma GuardsAgree(x: JsValue)
    ensures Defined(x) <==> x != Undefined
    ensures SpeedRejected(x) <==> !SpeedOk(x)
    ensures EffectRejected(x) <==> !EffectOk(x)
    ensures FlagRejected(x) <==> !x.Bool?
  {
  }

  /** Whether the options break the rule that error `e` reports. */
  predicate Violates(o: Config, e: ConfigError) {
    match e
    case BothRowsAndColumns => o.columns != Undefined && o.rows != Undefined
    case ColumnsWithoutItemWidth => o.columns != Undefined && o.itemWidth == Undefined
    case RowsWithoutItemWidth => o.rows != Undefined && o.itemWidth == Undefined
    case BadOpenSpeed => !SpeedOk(o.openSpeed)
    case BadCloseSpeed => !SpeedOk(o.closeSpeed)
    case BadOpenEffect => !EffectOk(o.openEffect)
    case BadCloseEffect => !EffectOk(o.closeEffect)
    case BadHideOnMouseOut => !o.hideOnMouseOut.Bool?
  }

  /** The options are usable exactly when every rule holds. */
  predicate Acceptable(o: Config) {
    (o.columns == Undefined || o.rows == Undefined) &&
    (o.columns != Undefined || o.rows != Undefined ==> o.itemWidth != Undefined) &&
    SpeedOk(o.openSpeed) && SpeedOk(o.closeSpeed) &&
    EffectOk(o.openEffect) && EffectOk(o.closeEffect) &&
    o.hideOnMouseOut.Bool?
  }

  lemma {:induction false} CheckOptionsAcceptable(o: Config)
    ensures CheckOptions(o).None? <==> Acceptable(o)
  {
    if !Acceptable(o) {
      if o.columns != Undefined && o.rows != Undefined {
        assert Violates(o, BothRowsAndColumns);
      } else if o.columns != Undefined && o.itemWidth == Undefined {
        assert Violates(o, ColumnsWithoutItemWidth);
      } else if o.rows != Undefined && o.itemWidth == Undefined {
        assert Violates(o, RowsWithoutItemWidth);
      } else if !SpeedOk(o.openSpeed) {
        assert Violates(o, BadOpenSpeed);
      } else if !SpeedOk(o.closeSpeed) {
        assert Violates(o, BadCloseSpeed);
      } else if !EffectOk(o.openEffect) {
        assert Violates(o, BadOpenEffect);
      } else if !EffectOk(o.closeEffect) {
        assert Violates(o, BadCloseEffect);
      } else {
        assert Violates(o, BadHideOnMouseOut);
      }
    }
  }

  /** Numbers are usable speeds, and so are values that are neither numbers nor strings. */
  lemma SpeedExamples(n: int)
    ensures !SpeedRejected(Num(n)) && !SpeedRejected(Bool(true)) && !SpeedRejected(Obj)
    ensures !SpeedRejected(Str("slow")) && !SpeedRejected(Str("fast"))
    ensures SpeedRejected(Undefined) && SpeedRejected(Str("400"))
  {
  }

  lemma DefaultsAcceptable()
    ensures CheckOptions(Defaults) == None
  {
  }
}
