/**
 * The environment recommender of screens/AquariumScreen.tsx: one
 * temperature interval that suits every occupant, a categorical oxygen
 * vote mapped onto fixed percentage bands, the OK / too-low / too-high
 * hints shown beside the two sliders, and the oxygen status of the tank
 * summary.
 */
module Environment {
  import opened Text
  import opened Json
  import opened Species

  /** A closed interval of percentages (an oxygen band). */
  datatype Range = Range(lo: real, hi: real)

  /** A JavaScript number as the temperature recommender computes with it:
      NaN, or a finite value. */
  datatype Bound = NaN | R(x: real)

  /** The host's conversion of text to a number (`Number(t)`), NaN for
      text that is not a numeral; the engine never looks inside it. */
  type TextNumber = string -> Bound

  /** `Number(v)`, the coercion `Math.max` and `Math.min` apply to each
      argument: `undefined` is NaN, `null` is 0, a boolean 0 or 1, and any
      other value is converted through its text. */
  function NumberOf(v: Val, textNum: TextNumber, numText: NumberText): Bound
  {
    match v
    case Undef => NaN
    case Null => R(0.0)
    case Bool(b) => R(if b then 1.0 else 0.0)
    case Num(n) => R(n)
    case _ => textNum(ToText(v, numText))
  }

  /** An occupant that states a temperature. */
  predicate HasTemp(s: Fields)
  {
    Truthy(Get(s, "temp"))
  }

  /** The occupant's temperature as the recommender reads it: a pair
      becomes `{min, max}`, anything else is used as it is. For the truthy
      values that survive `filter(Boolean)` this is `asRange`. */
  function TempValue(s: Fields): Val
  {
    AsRange(Get(s, "temp"))
  }

  /** The bounds an occupant contributes to `Math.max` and `Math.min`. */
  datatype TempRange = TempRange(lo: Bound, hi: Bound)

  /** `r.min` and `r.max` of the occupant's temperature, as numbers. A
      number, text or `true` has no `min` or `max` property, so both
      bounds of a bare temperature are NaN. */
  function RangeOf(s: Fields, textNum: TextNumber, numText: NumberText): TempRange
  {
    var t := PropsOf(TempValue(s));
    TempRange(NumberOf(Get(t, "min"), textNum, numText), NumberOf(Get(t, "max"), textNum, numText))
  }

  /** `items.map(...).filter(Boolean)`: the ranges of the occupants that
      state one, in order. */
  function Ranges(items: seq<Fields>, textNum: TextNumber, numText: NumberText): seq<TempRange>
  {
    if items == [] then []
    else
      (if HasTemp(items[0]) then [RangeOf(items[0], textNum, numText)] else []) + Ranges(items[1..], textNum, numText)
  }

  /** The ranges are exactly those of the occupants with a temperature. */
  lemma {:induction false} RangesExact(items: seq<Fields>, textNum: TextNumber, numText: NumberText)
    ensures forall r :: r in Ranges(items, textNum, numText) ==>
      exists s :: s in items && HasTemp(s) && r == RangeOf(s, textNum, numText)
    ensures forall s :: s in items && HasTemp(s) ==> RangeOf(s, textNum, numText) in Ranges(items, textNum, numText)
    ensures Ranges(items, textNum, numText) == [] <==> forall s :: s in items ==> !HasTemp(s)
  {
    if items != [] {
      assert items[0] in items;
      assert forall s :: s in items[1..] ==> s in items;
      RangesExact(items[1..], textNum, numText);
      assert forall s :: s in items ==> s == items[0] || s in items[1..];
    }
  }

  /** `Math.max(...rs.map(r => r.min))`: NaN when any minimum is NaN,
      otherwise the largest minimum. */
  function MaxLo(rs: seq<TempRange>): (m: Bound)
    requires rs != []
    ensures m.NaN? <==> exists r :: r in rs && r.lo.NaN?
    ensures m.R? ==> forall r :: r in rs ==> r.lo.R? && r.lo.x <= m.x
    ensures m.R? ==> exists r :: r in rs && r.lo == m
  {
    if |rs| == 1 then rs[0].lo
    else
      var m := MaxLo(rs[1..]);
      assert forall r :: r in rs ==> r == rs[0] || r in rs[1..];
      if rs[0].lo.NaN? || m.NaN? then NaN
      else if rs[0].lo.x >= m.x then rs[0].lo else m
  }

  /** `Math.min(...rs.map(r => r.max))`: NaN when any maximum is NaN,
      otherwise the smallest maximum. */
  function MinHi(rs: seq<TempRange>): (m: Bound)
    requires rs != []
    ensures m.NaN? <==> exists r :: r in rs && r.hi.NaN?
    ensures m.R? ==> forall r :: r in rs ==> r.hi.R? && m.x <= r.hi.x
    ensures m.R? ==> exists r :: r in rs && r.hi == m
  {
    if |rs| == 1 then rs[0].hi
    else
      var m := MinHi(rs[1..]);
      assert forall r :: r in rs ==> r == rs[0] || r in rs[1..];
      if rs[0].hi.NaN? || m.NaN? then NaN
      else if rs[0].hi.x <= m.x then rs[0].hi else m
  }

  /** `a > b`; false when either side is NaN. */
  predicate Above(a: Bound, b: Bound)
  {
    a.R? && b.R? && a.x > b.x
  }

  /** A temperature inside a range with numeric bounds. */
  predicate Within(x: real, r: TempRange)
  {
    r.lo.R? && r.hi.R? && r.lo.x <= x <= r.hi.x
  }

  datatype TempAdvice = TempAdvice(min: Bound, max: Bound, conflict: bool)

  /** `getRecommendedTemp`: nothing without ranges, otherwise the
      intersection of all of them, flagged as a conflict when empty. */
  function RecommendedTemp(items: seq<Fields>, textNum: TextNumber, numText: NumberText): Option<TempAdvice>
  {
    var rs := Ranges(items, textNum, numText);
    if rs == [] then None
    else Some(TempAdvice(MaxLo(rs), MinHi(rs), Above(MaxLo(rs), MinHi(rs))))
  }

  /** No recommendation exactly when no occupant states a temperature. */
  lemma RecommendedTempNone(items: seq<Fields>, textNum: TextNumber, numText: NumberText)
    ensures RecommendedTemp(items, textNum, numText).None? <==> forall s :: s in items ==> !HasTemp(s)
  {
    RangesExact(items, textNum, numText);
  }

  /** A temperature lies in every occupant's range exactly when it lies in
      the recommended one; so a conflict means no temperature suits them
      all. A bound that is not a number makes the recommendation NaN, and
      NaN is never a conflict. */
  lemma RecommendedTempFits(items: seq<Fields>, x: real, textNum: TextNumber, numText: NumberText)
    requires RecommendedTemp(items, textNum, numText).Some?
    ensures var rec := RecommendedTemp(items, textNum, numText).value;
      (forall r :: r in Ranges(items, textNum, numText) ==> Within(x, r)) <==> Within(x, TempRange(rec.min, rec.max))
    ensures RecommendedTemp(items, textNum, numText).value.conflict ==>
      exists r :: r in Ranges(items, textNum, numText) && !Within(x, r)
    ensures var rec := RecommendedTemp(items, textNum, numText).value;
      (rec.min.NaN? || rec.max.NaN?) <==> exists r :: r in Ranges(items, textNum, numText) && (r.lo.NaN? || r.hi.NaN?)
    ensures var rec := RecommendedTemp(items, textNum, numText).value;
      rec.min.NaN? || rec.max.NaN? ==> !rec.conflict
  {
    var rs := Ranges(items, textNum, numText);
    var lo, hi := MaxLo(rs), MinHi(rs);
    if lo.NaN? {
      var r :| r in rs && r.lo.NaN?;
      assert !Within(x, r);
    } else if hi.NaN? {
      var r :| r in rs && r.hi.NaN?;
      assert !Within(x, r);
    } else if lo.x <= x <= hi.x {
      assert forall r :: r in rs ==> Within(x, r);
    } else if x < lo.x {
      var r :| r in rs && r.lo == lo;
      assert !Within(x, r);
    } else {
      var r :| r in rs && r.hi == hi;
      assert !Within(x, r);
    }
  }

  /** The verdict of a slider value against a recommended interval. */
  datatype Level = Fine | TooLow | TooHigh

  /** What a slider hint says. */
  datatype Hint = NoData | Conflicting | Advice(lo: Bound, hi: Bound, level: Level)

  /** `v >= lo && v <= hi ? OK : v < lo ? low : high`, where every
      comparison with NaN is false: a NaN bound reads "Too high". */
  function LevelOf(v: real, lo: Bound, hi: Bound): (l: Level)
    ensures l == Fine <==> Within(v, TempRange(lo, hi))
    ensures l == TooLow <==> lo.R? && v < lo.x
    ensures l == TooHigh ==> lo.NaN? || hi.NaN? || v > hi.x
  {
    if lo.R? && hi.R? && v >= lo.x && v <= hi.x then Fine
    else if lo.R? && v < lo.x then TooLow
    else TooHigh
  }

  /** `renderTempHint`. */
  function TempHint(items: seq<Fields>, temp: real, textNum: TextNumber, numText: NumberText): Hint
  {
    match RecommendedTemp(items, textNum, numText)
    case None => NoData
    case Some(rec) =>
      if rec.conflict then Conflicting
      else Advice(rec.min, rec.max, LevelOf(temp, rec.min, rec.max))
  }

  /** The temperature hint says OK exactly when some occupant states a
      range and the water temperature lies in every stated range, all of
      whose bounds are numbers. */
  lemma TempHintFine(items: seq<Fields>, temp: real, textNum: TextNumber, numText: NumberText)
    ensures var h := TempHint(items, temp, textNum, numText);
      h.Advice? && h.level == Fine <==>
      Ranges(items, textNum, numText) != [] && forall r :: r in Ranges(items, textNum, numText) ==> Within(temp, r)
  {
    if Ranges(items, textNum, numText) != [] {
      RecommendedTempFits(items, temp, textNum, numText);
    }
  }

  /** A stated temperature whose bounds are not both numbers makes the
      hint neither OK nor a conflict whatever the water temperature; a
      minimum that is not a number (a bare number, say) makes it read
      "Too high". */
  lemma TempHintNaN(items: seq<Fields>, s: Fields, temp: real, textNum: TextNumber, numText: NumberText)
    requires s in items && HasTemp(s)
    requires RangeOf(s, textNum, numText).lo.NaN? || RangeOf(s, textNum, numText).hi.NaN?
    ensures var h := TempHint(items, temp, textNum, numText);
      h.Advice? && h.level != Fine && (h.lo.NaN? || h.hi.NaN?)
    ensures RangeOf(s, textNum, numText).lo.NaN? ==> TempHint(items, temp, textNum, numText).level == TooHigh
  {
    var rs := Ranges(items, textNum, numText);
    RangesExact(items, textNum, numText);
    assert RangeOf(s, textNum, numText) in rs;
    assert MaxLo(rs).NaN? || MinHi(rs).NaN?;
  }

  /** A bare number stated as the temperature has no bounds. */
  lemma BareTempIsNaN(s: Fields, textNum: TextNumber, numText: NumberText)
    requires Get(s, "temp").Num? && Get(s, "temp").n != 0.0
    ensures HasTemp(s)
    ensures RangeOf(s, textNum, numText) == TempRange(NaN, NaN)
  {
  }

  /** The oxygen categories; `Clash` is the "conflict" label. */
  datatype OxyLabel = Low | Medium | High | Clash

  /** `(s?.oxygenNeed || '').toString().toLowerCase()`. */
  function NeedText(s: Fields, numText: NumberText): string
  {
    Lower(ToText(Or(Get(s, "oxygenNeed"), Str("")), numText))
  }

  function Needs(items: seq<Fields>, numText: NumberText): (r: seq<string>)
    ensures |r| == |items| && forall i :: 0 <= i < |items| ==> r[i] == NeedText(items[i], numText)
  {
    seq(|items|, i requires 0 <= i < |items| => NeedText(items[i], numText))
  }

  /** The vote of `getRecommendedOxygen` over the occupants' needs. */
  function OxygenVote(needs: seq<string>): OxyLabel
  {
    if "high" in needs && "low" in needs then Clash
    else if "high" in needs then High
    else if |needs| > 0 && forall n :: n in needs ==> n == "low" then Low
    else Medium
  }

  /** The percentage band recommended for each label. */
  function Band(l: OxyLabel): (b: Option<Range>)
    ensures b.None? <==> l == Clash
    ensures b.Some? ==> 30.0 <= b.value.lo < b.value.hi <= 90.0
  {
    match l
    case Low => Some(Range(30.0, 55.0))
    case Medium => Some(Range(45.0, 75.0))
    case High => Some(Range(65.0, 90.0))
    case Clash => None
  }

  /** `getRecommendedOxygen`: the label and its band. */
  function RecommendedOxygen(items: seq<Fields>, numText: NumberText): (OxyLabel, Option<Range>)
  {
    var l := OxygenVote(Needs(items, numText));
    (l, Band(l))
  }

  /** The vote: a conflict exactly when one need is high and another low;
      otherwise any high need wins; low needs every need (at least one) to
      be low; medium in every other case. */
  lemma OxygenVoteRules(needs: seq<string>)
    ensures OxygenVote(needs) == Clash <==> "high" in needs && "low" in needs
    ensures OxygenVote(needs) == High <==> "high" in needs && "low" !in needs
    ensures OxygenVote(needs) == Low <==> |needs| > 0 && forall n :: n in needs ==> n == "low"
    ensures OxygenVote(needs) == Medium <==> "high" !in needs && (needs == [] || exists n :: n in needs && n != "low")
  {
    if |needs| > 0 && forall n :: n in needs ==> n == "low" {
      assert needs[0] in needs;
    }
  }

  /** `renderOxyHint`. A recommendation always exists, so "No oxygen data"
      is never shown. */
  function OxyHint(items: seq<Fields>, oxy: real, numText: NumberText): Hint
  {
    var (l, b) := RecommendedOxygen(items, numText);
    if l == Clash then Conflicting
    else Advice(R(b.value.lo), R(b.value.hi), LevelOf(oxy, R(b.value.lo), R(b.value.hi)))
  }

  /** The oxygen hint says OK exactly when the needs do not conflict and the
      slider lies in the band of the winning label. */
  lemma OxyHintFine(items: seq<Fields>, oxy: real, numText: NumberText)
    ensures var (l, b) := RecommendedOxygen(items, numText);
      OxyHint(items, oxy, numText).Advice? && OxyHint(items, oxy, numText).level == Fine <==>
      l != Clash && b.value.lo <= oxy <= b.value.hi
    ensures OxyHint(items, oxy, numText) != NoData
  {
  }

  /** `items.map(s => s.oxygenNeed).filter(Boolean)`: the needs that are
      set, as they are stored. */
  function SetNeeds(items: seq<Fields>): seq<Val>
  {
    if items == [] then []
    else
      var v := Get(items[0], "oxygenNeed");
      (if Truthy(v) then [v] else []) + SetNeeds(items[1..])
  }

  /** The set needs are the truthy stored needs of the occupants. */
  lemma {:induction false} SetNeedsExact(items: seq<Fields>)
    ensures forall v :: v in SetNeeds(items) ==> Truthy(v) && exists s :: s in items && Get(s, "oxygenNeed") == v
    ensures forall s :: s in items && Truthy(Get(s, "oxygenNeed")) ==> Get(s, "oxygenNeed") in SetNeeds(items)
  {
    if items != [] {
      SetNeedsExact(items[1..]);
      assert items[0] in items;
      assert forall s :: s in items[1..] ==> s in items;
      assert forall s :: s in items ==> s == items[0] || s in items[1..];
    }
  }

  /** The vote of `summarizeTank` over the set needs. */
  function SummaryVote(oxy: seq<Val>): OxyLabel
  {
    if Str("high") in oxy && Str("low") in oxy then Clash
    else if Str("high") in oxy then High
    else if |oxy| > 0 && forall o :: o in oxy ==> o == Str("low") then Low
    else Medium
  }

  /** The oxygen status of `summarizeTank`: an empty tank has no summary
      lines at all; otherwise unset needs are dropped and the values are
      compared as stored, without lower-casing. */
  function SummaryOxygen(items: seq<Fields>): (r: Option<OxyLabel>)
    ensures r.None? <==> items == []
  {
    if items == [] then None else Some(SummaryVote(SetNeeds(items)))
  }

  /** The two votes agree on lists that hold the same words. */
  lemma VotesAgree(needs: seq<string>, oxy: seq<Val>)
    requires forall w :: w in needs <==> Str(w) in oxy
    requires forall o :: o in oxy ==> o.Str?
    requires |oxy| > 0 <==> |needs| > 0
    ensures SummaryVote(oxy) == OxygenVote(needs)
  {
    if forall o :: o in oxy ==> o == Str("low") {
      assert forall n :: n in needs ==> n == "low" by {
        forall n | n in needs ensures n == "low" {
          assert Str(n) in oxy;
        }
      }
    }
    if forall n :: n in needs ==> n == "low" {
      assert forall o :: o in oxy ==> o == Str("low") by {
        forall o | o in oxy ensures o == Str("low") {
          assert o == Str(o.s);
        }
      }
    }
  }

  /** An oxygen need written the way the data model declares it. */
  predicate DeclaredNeed(s: Fields)
  {
    Get(s, "oxygenNeed") in {Str("low"), Str("medium"), Str("high")}
  }

  lemma LowLowered()
    ensures Lower("low") == "low"
  {
  }

  lemma MediumLowered()
    ensures Lower("medium") == "medium"
  {
  }

  lemma HighLowered()
    ensures Lower("high") == "high"
  {
  }

  lemma DeclaredNeedText(s: Fields, numText: NumberText)
    requires DeclaredNeed(s)
    ensures Str(NeedText(s, numText)) == Get(s, "oxygenNeed")
  {
    LowLowered();
    MediumLowered();
    HighLowered();
  }

  /** When every occupant declares one of the three needs, the slider hint
      and the tank summary agree; an empty tank shows no summary, while the
      slider hint still reads medium. */
  lemma OxygenRulesAgree(items: seq<Fields>, numText: NumberText)
    requires forall s :: s in items ==> DeclaredNeed(s)
    ensures items == [] ==> SummaryOxygen(items).None? && RecommendedOxygen(items, numText).0 == Medium
    ensures items != [] ==> SummaryOxygen(items) == Some(RecommendedOxygen(items, numText).0)
  {
    if items != [] {
      DeclaredVotesAgree(items, numText);
    }
  }

  /** The vote over the set needs equals the recommender's vote when every
      need is declared. */
  lemma DeclaredVotesAgree(items: seq<Fields>, numText: NumberText)
    requires forall s :: s in items ==> DeclaredNeed(s)
    ensures SummaryVote(SetNeeds(items)) == RecommendedOxygen(items, numText).0
  {
    var needs := Needs(items, numText);
    var oxy := SetNeeds(items);
    SetNeedsExact(items);
    DeclaredNeedsStored(items, numText);
    forall w ensures w in needs <==> Str(w) in oxy {
      if w in needs {
        var i :| 0 <= i < |needs| && needs[i] == w;
        assert items[i] in items;
      }
      if Str(w) in oxy {
        var s :| s in items && Get(s, "oxygenNeed") == Str(w);
        var i :| 0 <= i < |items| && items[i] == s;
      }
    }
    if |needs| > 0 {
      assert Str(needs[0]) in oxy;
    }
    if |oxy| > 0 {
      assert oxy[0] in oxy;
    }
    VotesAgree(needs, oxy);
  }

  /** Each declared need reads, lower-cased, as the word stored. */
  lemma DeclaredNeedsStored(items: seq<Fields>, numText: NumberText)
    requires forall s :: s in items ==> DeclaredNeed(s)
    ensures forall i :: 0 <= i < |items| ==> Str(Needs(items, numText)[i]) == Get(items[i], "oxygenNeed")
  {
    forall i | 0 <= i < |items| ensures Str(Needs(items, numText)[i]) == Get(items[i], "oxygenNeed") {
      assert items[i] in items;
      DeclaredNeedText(items[i], numText);
    }
  }

  /** The two rules differ on a tank where every set need is low but some
      occupant has none: the summary says low, the slider hint medium. */
  lemma OxygenRulesDifferOnUnset(items: seq<Fields>, numText: NumberText)
    requires exists s :: s in items && Get(s, "oxygenNeed") == Str("low")
    requires exists s :: s in items && Get(s, "oxygenNeed") == Undef
    requires forall s :: s in items ==> Get(s, "oxygenNeed") in {Str("low"), Undef}
    ensures SummaryOxygen(items) == Some(Low)
    ensures RecommendedOxygen(items, numText).0 == Medium
  {
    SummaryIgnoresUnset(items);
    RecommendedCountsUnset(items, numText);
  }

  lemma SummaryIgnoresUnset(items: seq<Fields>)
    requires exists s :: s in items && Get(s, "oxygenNeed") == Str("low")
    requires forall s :: s in items ==> Get(s, "oxygenNeed") in {Str("low"), Undef}
    ensures SummaryOxygen(items) == Some(Low)
  {
    SetNeedsExact(items);
    var a :| a in items && Get(a, "oxygenNeed") == Str("low");
    assert Str("low") in SetNeeds(items);
  }

  lemma RecommendedCountsUnset(items: seq<Fields>, numText: NumberText)
    requires exists s :: s in items && Get(s, "oxygenNeed") == Undef
    requires forall s :: s in items ==> Get(s, "oxygenNeed") in {Str("low"), Undef}
    ensures RecommendedOxygen(items, numText).0 == Medium
  {
    var needs := Needs(items, numText);
    var u :| u in items && Get(u, "oxygenNeed") == Undef;
    var k :| 0 <= k < |items| && items[k] == u;
    assert needs[k] == "" by { UnsetNeedText(u, numText); }
    assert "high" !in needs by {
      forall i | 0 <= i < |items| ensures needs[i] != "high" {
        assert items[i] in items;
        LowOrUnsetText(items[i], numText);
      }
    }
    assert needs[k] in needs;
  }

  lemma UnsetNeedText(s: Fields, numText: NumberText)
    requires Get(s, "oxygenNeed") == Undef
    ensures NeedText(s, numText) == ""
  {
  }

  lemma LowOrUnsetText(s: Fields, numText: NumberText)
    requires Get(s, "oxygenNeed") in {Str("low"), Undef}
    ensures NeedText(s, numText) == "low" || NeedText(s, numText) == ""
  {
    LowLowered();
  }
}
