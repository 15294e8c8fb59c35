/**
 * The star strings of the book modals: a review's `stars` count as filled and
 * empty stars, and a book's rating with a half star for a fractional part.
 */
module Stars {
  import opened Wrappers
  import opened Text

  /** The error `String.prototype.repeat` throws for a negative count. */
  datatype RangeError = RangeError

  const Full: char := '★'
  const Half: char := '⭐'
  const Empty: char := '☆'

  /** `c.repeat(n)`. */
  function RepeatChecked(c: char, n: int): (r: Result<string, RangeError>)
    ensures r.Ok? <==> n >= 0
    ensures r.Ok? ==> |r.value| == n && forall i :: 0 <= i < n ==> r.value[i] == c
  {
    if n < 0 then Err(RangeError) else Ok(Repeat(c, n))
  }

  /**
   * `"★".repeat(s) + "☆".repeat(5 - s)`: for 0 <= s <= 5, five symbols of
   * which the first s are filled; any other count throws.
   */
  function ReviewStars(s: int): (r: Result<string, RangeError>)
    ensures r.Ok? <==> 0 <= s <= 5
    ensures r.Ok? ==> |r.value| == 5
    ensures r.Ok? ==> forall i :: 0 <= i < 5 ==> (r.value[i] == Full <==> i < s) && (r.value[i] == Empty <==> i >= s)
  {
    match RepeatChecked(Full, s)
    case Err(e) => Err(e)
    case Ok(filled) =>
      match RepeatChecked(Empty, 5 - s)
      case Err(e) => Err(e)
      case Ok(empty) => Ok(filled + empty)
  }

  /** `Math.ceil(r / 10)` for a rating of `r` tenths. */
  function CeilTenths(r: int): int {
    -((-r) / 10)
  }

  /** `rating ?? 0`. */
  function RatingOf(tenths: Option<int>): int {
    if tenths.Some? then tenths.value else 0
  }

  /**
   * `renderStars(book.rating ?? 0)` for a rating of `tenths` tenths of a star:
   * `floor` filled stars, a half star when the rating is not whole, then
   * `5 - ceil` empty stars.
   */
  function RenderStars(tenths: Option<int>): (r: Result<string, RangeError>)
  {
    var rating := RatingOf(tenths);
    var full := rating / 10;
    var half := rating % 10 != 0;
    match RepeatChecked(Full, full)
    case Err(e) => Err(e)
    case Ok(filled) =>
      match RepeatChecked(Empty, 5 - CeilTenths(rating))
      case Err(e) => Err(e)
      case Ok(empty) => Ok(filled + (if half then [Half] else []) + empty)
  }

  /**
   * A rating from 0 to 5 stars (a missing one counts as 0) always gives five
   * symbols: floor(r) filled, then one half star exactly when r is not
   * whole, then 5 - ceil(r) empty; a rating outside that range throws.
   */
  lemma {:induction false} RenderStarsShape(tenths: Option<int>)
    ensures RenderStars(tenths).Ok? <==> 0 <= RatingOf(tenths) <= 50
    ensures RenderStars(tenths).Ok? ==> |RenderStars(tenths).value| == 5
    ensures RenderStars(tenths).Ok? ==> forall i :: 0 <= i < RatingOf(tenths) / 10 ==> RenderStars(tenths).value[i] == Full
    ensures RenderStars(tenths).Ok? ==> forall i :: RatingOf(tenths) / 10 <= i < 5 ==> RenderStars(tenths).value[i] != Full
    ensures RenderStars(tenths).Ok? ==> (RatingOf(tenths) % 10 != 0 <==> Half in RenderStars(tenths).value)
    ensures RenderStars(tenths).Ok? && RatingOf(tenths) % 10 != 0 ==> RenderStars(tenths).value[RatingOf(tenths) / 10] == Half
    ensures RenderStars(tenths).Ok? ==> forall i :: CeilTenths(RatingOf(tenths)) <= i < 5 ==> RenderStars(tenths).value[i] == Empty
  {
    var rating := RatingOf(tenths);
    var r := RenderStars(tenths);
    var full := rating / 10;
    var c := CeilTenths(rating);
    assert rating % 10 != 0 ==> c == full + 1;
    assert rating % 10 == 0 ==> c == full;
    if 0 <= rating <= 50 {
      var s := r.value;
      var filled := Repeat(Full, full);
      var empty := Repeat(Empty, 5 - c);
      var mid: string := if rating % 10 != 0 then [Half] else [];
      assert s == filled + mid + empty;
      assert forall i :: full <= i < |s| ==> s[i] == (if i < full + |mid| then Half else Empty);
      if rating % 10 != 0 {
        assert s[full] == Half;
      } else {
        assert forall i :: 0 <= i < |s| ==> s[i] != Half;
      }
    }
  }
}
