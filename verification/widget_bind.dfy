/**
 * The result side of the bind-widget activity contract: how the inspector reads
 * the widget id back from the intent the system's bind screen returns.
 */
module WidgetBind {
  import opened Wrappers

  /** Kotlin's `Int`. */
  newtype int32 = x: int | -0x8000_0000 <= x < 0x8000_0000

  /** A value stored in an intent's extras bundle: an `Int`, or a value of any other type. */
  datatype Extra = IntExtra(n: int32) | OtherExtra(kind: string)

  /** A returned intent; `extras` is `None` when the intent carries no bundle. */
  datatype Intent = Intent(extras: Option<map<string, Extra>>)

  /** The key `AppWidgetManager.EXTRA_APPWIDGET_ID`. */
  const ExtraAppWidgetId := "appWidgetId"

  /** The value that stands for "no widget id". */
  const NoId: int32 := -1

  /**
   * `Bundle.getInt(key, default)`: the stored `Int`, or `default` when the key is
   * missing or holds a value of another type.
   */
  function GetInt(extras: map<string, Extra>, key: string, default: int32): int32
  {
    if key in extras then
      match extras[key]
      case IntExtra(n) => n
      case OtherExtra(_) => default
    else default
  }

  /** An `Int` just stored under a key is read back; a key just removed reads as the default. */
  lemma GetIntPut(extras: map<string, Extra>, key: string, n: int32, default: int32)
    ensures GetInt(extras[key := IntExtra(n)], key, default) == n
    ensures GetInt(extras - {key}, key, default) == default
  {
  }

  /**
   * `RequestWidgetBind.parseResult(resultCode, intent)`: the widget id carried by
   * the returned intent, or `None` when there is no intent, no extras, no id, or
   * the id is the sentinel `-1`. The result code is not consulted.
   */
  function ParseResult(resultCode: int32, intent: Option<Intent>): (r: Option<int32>)
    ensures r != Some(NoId)
    ensures r.Some? <==>
      && intent.Some?
      && intent.value.extras.Some?
      && ExtraAppWidgetId in intent.value.extras.value
      && intent.value.extras.value[ExtraAppWidgetId].IntExtra?
      && intent.value.extras.value[ExtraAppWidgetId].n != NoId
    ensures r.Some? ==> r.value == intent.value.extras.value[ExtraAppWidgetId].n
  {
    match intent
    case None => None
    case Some(i) =>
      match i.extras
      case None => None
      case Some(extras) =>
        var id := GetInt(extras, ExtraAppWidgetId, NoId);
        if id != NoId then Some(id) else None
  }

  /** A reply that carries a widget id other than `-1` is read back as that id, whatever else it holds. */
  lemma ReplyRoundTrip(resultCode: int32, others: map<string, Extra>, id: int32)
    requires id != NoId
    ensures ParseResult(resultCode, Some(Intent(Some(others[ExtraAppWidgetId := IntExtra(id)])))) == Some(id)
  {
  }

  /** The result depends on the returned intent alone. */
  lemma ResultCodeIgnored(a: int32, b: int32, intent: Option<Intent>)
    ensures ParseResult(a, intent) == ParseResult(b, intent)
  {
  }

  /** Every way of reading "no widget": no intent, no extras, a missing or mistyped id, or `-1`. */
  lemma NoWidgetCases(resultCode: int32, others: map<string, Extra>, kind: string)
    ensures ParseResult(resultCode, None) == None
    ensures ParseResult(resultCode, Some(Intent(None))) == None
    ensures ParseResult(resultCode, Some(Intent(Some(others - {ExtraAppWidgetId})))) == None
    ensures ParseResult(resultCode, Some(Intent(Some(others[ExtraAppWidgetId := OtherExtra(kind)])))) == None
    ensures ParseResult(resultCode, Some(Intent(Some(others[ExtraAppWidgetId := IntExtra(NoId)])))) == None
  {
  }
}
