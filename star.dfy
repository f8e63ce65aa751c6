/** The star record (src/models/star.py): its field validators, its conversion to and
    from a table entity, and the time decay of its brightness. */
module StarModel {
  import opened Wrappers
  import opened PyValue

  /** A star as the API receives it, after the field defaults are applied. A `None`
      id or last like was left out of the request or sent as null; a brightness left
      out defaults to `Some(100.0)`, so a `None` brightness was sent as an explicit
      null. */
  datatype Star = Star(id: Option<string>, x: real, y: real, message: string,
                       brightness: Option<real>, lastLiked: Option<real>)

  /** The longest message a star may carry. */
  const MaxMessageLength := 280

  /** `validate_coordinates`: a coordinate is returned unchanged when it lies in
      [-1, 1], ends included, and refused otherwise. */
  function ValidateCoordinate(v: real): (r: Result<real>)
    ensures r.Success? <==> -1.0 <= v <= 1.0
    ensures r.Success? ==> r.value == v
  {
    if -1.0 <= v <= 1.0 then Success(v) else Failure("Coordinates must be between -1 and 1")
  }

  /** `validate_message`: at most 280 characters. */
  function ValidateMessage(m: string): (r: Result<string>)
    ensures r.Success? <==> |m| <= MaxMessageLength
    ensures r.Success? ==> r.value == m
  {
    if |m| > MaxMessageLength then Failure("Message too long") else Success(m)
  }

  /** What the model's validators accept. */
  predicate Valid(s: Star) {
    ValidateCoordinate(s.x).Success? && ValidateCoordinate(s.y).Success?
    && ValidateMessage(s.message).Success?
  }

  /** The values the request tests use: both ends of the range pass, 2.0 and -2.0 and
      a 300-character message do not. */
  lemma ValidatorExamples()
    ensures ValidateCoordinate(1.0).Success? && ValidateCoordinate(-1.0).Success?
    ensures ValidateCoordinate(2.0).Failure? && ValidateCoordinate(-2.0).Failure?
    ensures ValidateMessage(seq(300, _ => 'x')).Failure?
    ensures ValidateMessage(seq(280, _ => 'x')).Success?
  {
  }

  /** A star is valid exactly when both coordinates lie in [-1, 1] and the message
      has at most 280 characters. */
  lemma ValidIff(s: Star)
    ensures Valid(s) <==> -1.0 <= s.x <= 1.0 && -1.0 <= s.y <= 1.0 && |s.message| <= 280
  {
  }

  /** `self.id or str(uuid4())`: a missing or empty id is replaced by a fresh one. */
  function IdOr(id: Option<string>, generated: string): (r: string)
    ensures id.Some? && id.value != "" ==> r == id.value
    ensures id.None? || id.value == "" ==> r == generated
  {
    if id.Some? && id.value != "" then id.value else generated
  }

  /** `x or default` on an optional float: None and 0.0 both give the default. */
  function RealOr(v: Option<real>, default: real): (r: real)
    ensures v.Some? && v.value != 0.0 ==> r == v.value
    ensures v.None? || v.value == 0.0 ==> r == default
  {
    if v.Some? && v.value != 0.0 then v.value else default
  }

  /** An optional float as a Python value. */
  function OptNum(v: Option<real>): Val {
    if v.Some? then VNum(v.value) else VNone
  }

  /** `to_entity`: the clock reading `now`, the month it falls in (`yyyymm`, as
      `strftime('%Y%m')` writes it) and a fresh uuid are parameters. */
  function ToEntity(s: Star, now: real, yyyymm: string, uuid: string): Entity {
    map[
      "PartitionKey" := VStr("STAR_" + yyyymm),
      "RowKey" := VStr(IdOr(s.id, uuid)),
      "X" := VNum(s.x),
      "Y" := VNum(s.y),
      "Message" := VStr(s.message),
      "Brightness" := OptNum(s.brightness),
      "LastLiked" := VNum(RealOr(s.lastLiked, now)),
      "CreatedAt" := VNum(now)
    ]
  }

  /** An optional float field of a pydantic model: None or a number. */
  function OptionalReal(v: Val): Result<Option<real>> {
    match v
    case VNone => Success(None)
    case VNum(r) => Success(Some(r))
    case _ => Failure("Input should be a valid number")
  }

  /** `from_entity`: a missing RowKey, X, Y or Message is a KeyError; a value of the
      wrong kind or one the validators refuse is a validation error. A missing
      Brightness defaults to 100.0 and a missing LastLiked to None. */
  function FromEntity(e: Entity): (r: Result<Star>)
    ensures r.Success? ==> Valid(r.value)
  {
    if !("RowKey" in e && "X" in e && "Y" in e && "Message" in e) then Failure("KeyError")
    else if !((e["RowKey"].VStr? || e["RowKey"].VNone?) && e["X"].VNum? && e["Y"].VNum?
              && e["Message"].VStr?) then Failure("Input should be a valid value")
    else
      var brightness := OptionalReal(GetOr(e, "Brightness", VNum(100.0)));
      var lastLiked := OptionalReal(GetOr(e, "LastLiked", VNone));
      if brightness.Failure? || lastLiked.Failure? then Failure("Input should be a valid number")
      else
        var s := Star(if e["RowKey"].VStr? then Some(e["RowKey"].str) else None,
                      e["X"].num, e["Y"].num, e["Message"].str, brightness.value, lastLiked.value);
        if Valid(s) then Success(s) else Failure("Value error")
  }

  /** Reading back a valid star's entity keeps x, y, message and brightness; the id
      comes back only when it was non-empty (else the fresh uuid appears), and
      last_liked only when it was non-zero (else the clock reading appears). */
  lemma EntityRoundTrip(s: Star, now: real, yyyymm: string, uuid: string)
    requires Valid(s)
    ensures FromEntity(ToEntity(s, now, yyyymm, uuid)).Success?
    ensures var t := FromEntity(ToEntity(s, now, yyyymm, uuid)).value;
      && t.x == s.x && t.y == s.y && t.message == s.message && t.brightness == s.brightness
      && (s.id.Some? && s.id.value != "" ==> t.id == s.id)
      && (s.id.None? || s.id.value == "" ==> t.id == Some(uuid))
      && (s.lastLiked.Some? && s.lastLiked.value != 0.0 ==> t.lastLiked == s.lastLiked)
      && (s.lastLiked.None? || s.lastLiked.value == 0.0 ==> t.lastLiked == Some(now))
  {
  }

  /** The entity lands in partition "STAR_" + YYYYMM. */
  lemma EntityPartition(s: Star, now: real, yyyymm: string, uuid: string)
    ensures "PartitionKey" in ToEntity(s, now, yyyymm, uuid)
    ensures ToEntity(s, now, yyyymm, uuid)["PartitionKey"] == VStr("STAR_" + yyyymm)
  {
  }

  // ---------------------------------------------------------------------------
  // Brightness decay
  // ---------------------------------------------------------------------------

  /** What the model assumes of `math.exp`: exp(0) = 1, it is positive and it is
      strictly increasing. */
  ghost predicate IsExp(exp: real -> real) {
    && exp(0.0) == 1.0
    && (forall x :: exp(x) > 0.0)
    && (forall x, y :: x < y ==> exp(x) < exp(y))
  }

  function Max(a: real, b: real): real { if a >= b then a else b }

  function Min(a: real, b: real): real { if a <= b then a else b }

  /** `max(0.01, 1.0 - 0.01 * t)` for the elapsed time `t`. */
  function DecayFactor(t: real): (f: real)
    ensures f >= 0.01
    ensures t >= 0.0 ==> f <= 1.0
    ensures t <= 99.0 ==> f == 1.0 - 0.01 * t
    ensures t >= 99.0 ==> f == 0.01
    ensures t < 0.0 ==> f > 1.0
  {
    Max(0.01, 1.0 - 0.01 * t)
  }

  /** The magnitude of the exponent: brightness is `base * exp(-Exponent(t))`. */
  function Exponent(t: real): real {
    DecayFactor(t) * t
  }

  /** `math.exp` raises OverflowError when its argument exceeds `limit` (about
      709.78 for IEEE doubles): the brightness formula is defined exactly when the
      argument it passes, the negated exponent, is at most that. */
  predicate InExpRange(limit: real, lastLiked: real, now: real) {
    -Exponent(now - lastLiked) <= limit
  }

  /** A past or present like never overflows: its argument to `exp` is at most 0. */
  lemma PastLikeInRange(limit: real, lastLiked: real, now: real)
    requires lastLiked <= now && limit >= 0.0
    ensures InExpRange(limit, lastLiked, now)
  {
    ExponentNonNegative(now - lastLiked);
  }

  /** A like at least 222 s in the future overflows `math.exp`: its argument is
      s + 0.01 s^2 for s seconds ahead, above 709.78 from s = 222 on. */
  lemma FarFutureLikeOverflows(lastLiked: real, now: real)
    requires lastLiked - now >= 222.0
    ensures !InExpRange(709.78, lastLiked, now)
  {
    var s := lastLiked - now;
    assert DecayFactor(-s) == 1.0 + 0.01 * s;
    assert -Exponent(now - lastLiked) == s + 0.01 * (s * s) by {
      assert now - lastLiked == -s;
    }
    assert s * s >= 222.0 * 222.0 by {
      NonNegativeProduct(s - 222.0, s + 222.0);
    }
  }

  /** `calculate_current_brightness`, with the clock reading `now` and `math.exp` as
      parameters. The result never drops below 20, whatever the inputs. */
  function CurrentBrightness(exp: real -> real, base: real, lastLiked: real, now: real): (r: real)
    ensures r >= 20.0
  {
    var timeSinceLiked := now - lastLiked;
    var decayFactor := DecayFactor(timeSinceLiked);
    Max(20.0, base * exp(-decayFactor * timeSinceLiked))
  }

  /** The exponent is not monotone in the elapsed time: it rises to 25 at 50 s, falls
      to 0.99 at 99 s and then grows as 0.01 * t; it stays at most 25 until 2500 s. */
  lemma ExponentShape(t: real)
    ensures Exponent(0.0) == 0.0
    ensures Exponent(50.0) == 25.0 && Exponent(99.0) == 0.99
    ensures t >= 99.0 ==> Exponent(t) == 0.01 * t
    ensures 0.0 <= t <= 99.0 ==> Exponent(t) == 25.0 - 0.01 * (t - 50.0) * (t - 50.0)
    ensures 0.0 <= t <= 2500.0 ==> 0.0 <= Exponent(t) <= 25.0
  {
    assert DecayFactor(50.0) == 0.5 && DecayFactor(99.0) == 0.01;
    if 0.0 <= t <= 99.0 {
      ExponentBeforeFloor(t);
    } else if t >= 99.0 {
      assert DecayFactor(t) == 0.01;
    }
  }

  /** Before the factor reaches its floor the exponent is a downward parabola with
      its top, 25, at 50 s. */
  lemma ExponentBeforeFloor(t: real)
    requires 0.0 <= t <= 99.0
    ensures Exponent(t) == 25.0 - 0.01 * (t - 50.0) * (t - 50.0)
    ensures 0.0 <= Exponent(t) <= 25.0
  {
    var u := t - 50.0;
    assert DecayFactor(t) == 1.0 - 0.01 * t;
    assert (1.0 - 0.01 * t) * t == 25.0 - 0.01 * u * u;
    assert (50.0 - u) * (50.0 + u) >= 0.0 by { NonNegativeProduct(50.0 - u, 50.0 + u); }
    assert u * u >= 0.0 by { NonNegativeProduct(if u >= 0.0 then u else -u, if u >= 0.0 then u else -u); }
  }

  lemma NonNegativeProduct(a: real, b: real)
    requires a >= 0.0 && b >= 0.0
    ensures a * b >= 0.0
  {
  }

  /** For elapsed time at least 0 the exponent is at least 0. */
  lemma ExponentNonNegative(t: real)
    requires t >= 0.0
    ensures Exponent(t) >= 0.0
  {
    assert DecayFactor(t) > 0.0;
  }

  /** Right after a like (no elapsed time) the brightness is max(20, base). */
  lemma BrightnessAtLike(exp: real -> real, base: real, now: real)
    requires IsExp(exp)
    ensures CurrentBrightness(exp, base, now, now) == Max(20.0, base)
  {
    assert -DecayFactor(0.0) * 0.0 == 0.0;
  }

  /** For a past or present last like, the brightness never exceeds max(20, base). */
  lemma BrightnessBounded(exp: real -> real, base: real, lastLiked: real, now: real)
    requires IsExp(exp)
    requires lastLiked <= now
    ensures 20.0 <= CurrentBrightness(exp, base, lastLiked, now) <= Max(20.0, base)
  {
    var t := now - lastLiked;
    ExponentNonNegative(t);
    AtElapsed(exp, base, now, t, Exponent(t));
    ExpAtMostOne(exp, -Exponent(t));
    FloorBound(base, exp(-Exponent(t)));
  }

  /** Under the assumptions on `exp`, a non-positive argument gives a value in (0, 1]. */
  lemma ExpAtMostOne(exp: real -> real, e: real)
    requires IsExp(exp)
    requires e <= 0.0
    ensures 0.0 < exp(e) <= 1.0
  {
    if e < 0.0 {
      assert exp(e) < exp(0.0);
    }
  }

  /** Scaling by a factor in (0, 1] never lifts a value above max(20, base). */
  lemma FloorBound(base: real, f: real)
    requires 0.0 < f <= 1.0
    ensures Max(20.0, base * f) <= Max(20.0, base)
  {
    if base >= 0.0 {
      assert base * f <= base * 1.0;
    } else {
      assert base * f < 0.0;
    }
  }

  /** Brightness is not monotone in the elapsed time: unless the floor hides it, a
      star liked 99 s ago shines brighter than one liked 50 s ago. */
  lemma BrightnessRisesAfterFifty(exp: real -> real, base: real, now: real)
    requires IsExp(exp)
    requires base * exp(-0.99) > 20.0
    ensures CurrentBrightness(exp, base, now - 99.0, now) > CurrentBrightness(exp, base, now - 50.0, now)
  {
    FloorOrderedProducts(base, exp(-25.0), exp(-0.99), base * exp(-25.0), base * exp(-0.99));
    ExponentShape(0.0);
    AtElapsed(exp, base, now, 99.0, 0.99);
    AtElapsed(exp, base, now, 50.0, 25.0);
  }

  /** The brightness `t` seconds after the last like, in terms of the exponent's
      magnitude `x` at `t`. */
  lemma AtElapsed(exp: real -> real, base: real, now: real, t: real, x: real)
    requires Exponent(t) == x
    ensures CurrentBrightness(exp, base, now - t, now) == Max(20.0, base * exp(-x))
  {
    assert now - (now - t) == t;
    assert -DecayFactor(t) * t == -x;
  }

  /** Scaling two positive factors by a base that lifts the larger one above the floor
      keeps their order through the floor (the products are passed in as `dim` and
      `bright`). */
  lemma FloorOrderedProducts(base: real, early: real, late: real, dim: real, bright: real)
    requires 0.0 < early < late
    requires dim == base * early && bright == base * late
    requires bright > 20.0
    ensures Max(20.0, bright) > Max(20.0, dim)
  {
    assert base > 0.0;
    assert dim < bright;
  }

  /** A last like in the future is not clamped: the decay factor exceeds 1, the
      exponent is positive, and a positive base comes out brighter than itself. */
  lemma FutureLikeNotClamped(exp: real -> real, base: real, lastLiked: real, now: real)
    requires IsExp(exp)
    requires lastLiked > now && base > 0.0
    ensures DecayFactor(now - lastLiked) > 1.0
    ensures -DecayFactor(now - lastLiked) * (now - lastLiked) > 0.0
    ensures CurrentBrightness(exp, base, lastLiked, now) > base
  {
    var t := now - lastLiked;
    var e := -DecayFactor(t) * t;
    assert e > 0.0;
    assert exp(e) > exp(0.0);
    assert base * exp(e) > base * 1.0;
  }

  /** So a future last like does not read as "liked just now": for a base of at least
      20, it shows brighter than a like at the current instant. */
  lemma FutureLikeDiffersFromNow(exp: real -> real, base: real, lastLiked: real, now: real)
    requires IsExp(exp)
    requires lastLiked > now && base >= 20.0
    ensures CurrentBrightness(exp, base, lastLiked, now) > CurrentBrightness(exp, base, now, now)
  {
    FutureLikeNotClamped(exp, base, lastLiked, now);
    BrightnessAtLike(exp, base, now);
  }
}
