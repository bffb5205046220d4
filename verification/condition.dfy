/**
 * The evolution-condition formatter of assets/js/app.js (`formatEvoCondition`):
 * an evolution condition record from the API, whose fields may all be
 * missing, is turned into a short Spanish label. Every field that applies
 * contributes one fragment, in a fixed field order, and the fragments are
 * joined with " • "; when none applies the label is "→".
 */
module EvoCondition {
  import opened Wrappers
  import opened Text

  /**
   * One entry of an edge's `evolution_details`. A named reference
   * (`item`, `trigger`, ...) is `None` when the JSON holds `null`; numbers are
   * `None` when `null`; `time_of_day` is a plain string, empty when unset.
   */
  datatype Condition = Condition(
    minLevel: Option<int>,
    item: Option<string>,
    heldItem: Option<string>,
    trigger: Option<string>,
    minHappiness: Option<int>,
    minBeauty: Option<int>,
    minAffection: Option<int>,
    timeOfDay: string,
    location: Option<string>,
    knownMove: Option<string>,
    knownMoveType: Option<string>,
    gender: Option<int>,
    needsOverworldRain: bool,
    relativePhysicalStats: Option<int>,
    turnUpsideDown: bool)

  /** The empty object `{}` the caller substitutes for a missing condition. */
  const NoCondition: Condition :=
    Condition(None, None, None, None, None, None, None, "", None, None, None, None, false, None, false)

  const Separator: string := " • "
  const Unconditional: string := "→"

  /** A number field is truthy: present and non-zero. */
  predicate NumGiven(n: Option<int>) {
    n.Some? && n.value != 0
  }

  /** A named reference is truthy: present with a non-empty name. */
  predicate NameGiven(n: Option<string>) {
    n.Some? && n.value != ""
  }

  /** The condition fields, each of which may contribute one fragment. */
  datatype Field =
    | Level | Item | HeldItem | Trigger | Happiness | Beauty | Affection | TimeOfDay
    | Location | KnownMove | KnownMoveType | Gender | Rain | RelativeStats | UpsideDown

  /** The trigger fragment: trade and level-up are special, any other trigger shows its name. */
  function TriggerLabel(t: string): (r: Option<string>)
    ensures r.None? <==> t == "" || t == "level-up"
    ensures t == "trade" ==> r == Some("Intercambio")
    ensures t != "" && t != "trade" && t != "level-up" ==> r == Some(Cap(t))
  {
    if t == "" then None
    else if t == "trade" then Some("Intercambio")
    else if t == "level-up" then None
    else Some(Cap(t))
  }

  /** The time-of-day fragment: day and night are translated, other values are capitalised. */
  function TimeOfDayLabel(t: string): (r: Option<string>)
    ensures r.None? <==> t == ""
    ensures t == "day" ==> r == Some("Día")
    ensures t == "night" ==> r == Some("Noche")
    ensures t != "" && t != "day" && t != "night" ==> r == Some(Cap(t))
  {
    if t == "" then None
    else if t == "day" then Some("Día")
    else if t == "night" then Some("Noche")
    else Some(Cap(t))
  }

  /** The gender fragment: only the API's codes 1 (female) and 2 (male) show. */
  function GenderLabel(g: Option<int>): (r: Option<string>)
    ensures r.Some? <==> g == Some(1) || g == Some(2)
    ensures g == Some(1) ==> r == Some("Hembra")
    ensures g == Some(2) ==> r == Some("Macho")
  {
    if g == Some(1) then Some("Hembra")
    else if g == Some(2) then Some("Macho")
    else None
  }

  /** The relative-stats fragment: 1 and -1 show which stat dominates, 0 or null show nothing. */
  function RelativeStatsLabel(s: Option<int>): (r: Option<string>)
    ensures r.Some? <==> s == Some(1) || s == Some(-1)
    ensures s == Some(1) ==> r == Some("Atk>Def")
    ensures s == Some(-1) ==> r == Some("Def>Atk")
  {
    if s == Some(1) then Some("Atk>Def")
    else if s == Some(-1) then Some("Def>Atk")
    else None
  }

  function Threshold(prefix: string, n: Option<int>): Option<string> {
    if NumGiven(n) then Some(prefix + IntToString(n.value) + "+") else None
  }

  function Named(prefix: string, n: Option<string>): Option<string> {
    if NameGiven(n) then Some(prefix + Cap(n.value)) else None
  }

  /** The fragment one field contributes, if any. */
  function FieldLabel(c: Condition, f: Field): (r: Option<string>)
    ensures r.Some? ==> |r.value| > 0
  {
    match f
    case Level => if NumGiven(c.minLevel) then Some("Lv " + IntToString(c.minLevel.value)) else None
    case Item => Named("", c.item)
    case HeldItem => Named("Held ", c.heldItem)
    case Trigger => if NameGiven(c.trigger) then TriggerLabel(c.trigger.value) else None
    case Happiness => Threshold("Amistad ", c.minHappiness)
    case Beauty => Threshold("Belleza ", c.minBeauty)
    case Affection => Threshold("Afecto ", c.minAffection)
    case TimeOfDay => TimeOfDayLabel(c.timeOfDay)
    case Location => Named("", c.location)
    case KnownMove => Named("Move ", c.knownMove)
    case KnownMoveType => Named("Tipo ", c.knownMoveType)
    case Gender => GenderLabel(c.gender)
    case Rain => if c.needsOverworldRain then Some("Lluvia") else None
    case RelativeStats => RelativeStatsLabel(c.relativePhysicalStats)
    case UpsideDown => if c.turnUpsideDown then Some("3DS invertida") else None
  }

  /** A fragment as a list of zero or one strings. */
  function Opt(l: Option<string>): (r: seq<string>)
    ensures r == [] <==> l.None?
  {
    if l.Some? then [l.value] else []
  }

  /** The fragments given from position `k` of `labels` on, in order. */
  function Present(labels: seq<Option<string>>, k: nat): (r: seq<string>)
    decreases |labels| - k
  {
    if k >= |labels| then [] else Opt(labels[k]) + Present(labels, k + 1)
  }

  /** The fixed order in which the fields' fragments appear in the label. */
  const FieldOrder: seq<Field> := [
    Level, Item, HeldItem, Trigger, Happiness, Beauty, Affection, TimeOfDay,
    Location, KnownMove, KnownMoveType, Gender, Rain, RelativeStats, UpsideDown ]

  /** Each field's possible fragment, in the fixed order of the label. */
  function Labels(c: Condition): (ls: seq<Option<string>>)
    ensures |ls| == 15
    ensures forall i :: 0 <= i < |ls| ==> ls[i].Some? ==> |ls[i].value| > 0
  {
    seq(|FieldOrder|, i requires 0 <= i < |FieldOrder| => FieldLabel(c, FieldOrder[i]))
  }

  /** All fragments of a condition: the labels of the fields that apply, in the fixed order. */
  function Fragments(c: Condition): seq<string>
  {
    Present(Labels(c), 0)
  }

  /** No field of the condition contributes a fragment, stated field by field. */
  predicate NothingApplies(c: Condition) {
    && !NumGiven(c.minLevel)
    && !NameGiven(c.item)
    && !NameGiven(c.heldItem)
    && (!NameGiven(c.trigger) || c.trigger.value == "level-up")
    && !NumGiven(c.minHappiness)
    && !NumGiven(c.minBeauty)
    && !NumGiven(c.minAffection)
    && c.timeOfDay == ""
    && !NameGiven(c.location)
    && !NameGiven(c.knownMove)
    && !NameGiven(c.knownMoveType)
    && c.gender != Some(1) && c.gender != Some(2)
    && !c.needsOverworldRain
    && c.relativePhysicalStats != Some(1) && c.relativePhysicalStats != Some(-1)
    && !c.turnUpsideDown
  }

  /** `formatEvoCondition(c)`: the fragments joined by " • ", or "→" when there are none. */
  function Format(c: Condition): (s: string)
    ensures |s| > 0
    ensures NothingApplies(c) ==> s == Unconditional
    ensures !NothingApplies(c) ==> s == Join(Fragments(c), Separator)
  {
    FragmentsEmptyIffNothingApplies(c);
    PresentNonEmpty(Labels(c), 0);
    var parts := Fragments(c);
    if |parts| == 0 then Unconditional
    else
      JoinNonEmpty(parts, Separator);
      Join(parts, Separator)
  }

  lemma {:induction false} JoinNonEmpty(parts: seq<string>, sep: string)
    requires |parts| > 0 && |parts[0]| > 0
    ensures |Join(parts, sep)| > 0
  {
    if |parts| > 1 {
      assert Join(parts, sep) == parts[0] + sep + Join(parts[1..], sep);
    }
  }

  /** One step of `Present`: empty from `k` on exactly when `k` has no label and nothing follows. */
  lemma PresentEmptyStep(labels: seq<Option<string>>, k: nat)
    requires k < |labels|
    ensures Present(labels, k) == [] <==> labels[k].None? && Present(labels, k + 1) == []
  {
  }

  lemma LevelToHappinessLabels(c: Condition)
    ensures Labels(c)[0].None? <==> !NumGiven(c.minLevel)
    ensures Labels(c)[1].None? <==> !NameGiven(c.item)
    ensures Labels(c)[2].None? <==> !NameGiven(c.heldItem)
    ensures Labels(c)[3].None? <==> (!NameGiven(c.trigger) || c.trigger.value == "level-up")
    ensures Labels(c)[4].None? <==> !NumGiven(c.minHappiness)
  {
    var ls := Labels(c);
    assert ls[0] == FieldLabel(c, Level);
    assert ls[1] == FieldLabel(c, Item);
    assert ls[2] == FieldLabel(c, HeldItem);
    assert ls[3] == FieldLabel(c, Trigger);
    assert ls[4] == FieldLabel(c, Happiness);
  }

  lemma BeautyToKnownMoveLabels(c: Condition)
    ensures Labels(c)[5].None? <==> !NumGiven(c.minBeauty)
    ensures Labels(c)[6].None? <==> !NumGiven(c.minAffection)
    ensures Labels(c)[7].None? <==> c.timeOfDay == ""
    ensures Labels(c)[8].None? <==> !NameGiven(c.location)
    ensures Labels(c)[9].None? <==> !NameGiven(c.knownMove)
  {
    var ls := Labels(c);
    assert ls[5] == FieldLabel(c, Beauty);
    assert ls[6] == FieldLabel(c, Affection);
    assert ls[7] == FieldLabel(c, TimeOfDay);
    assert ls[8] == FieldLabel(c, Location);
    assert ls[9] == FieldLabel(c, KnownMove);
  }

  lemma MoveTypeToUpsideDownLabels(c: Condition)
    ensures Labels(c)[10].None? <==> !NameGiven(c.knownMoveType)
    ensures Labels(c)[11].None? <==> (c.gender != Some(1) && c.gender != Some(2))
    ensures Labels(c)[12].None? <==> !c.needsOverworldRain
    ensures Labels(c)[13].None? <==> (c.relativePhysicalStats != Some(1) && c.relativePhysicalStats != Some(-1))
    ensures Labels(c)[14].None? <==> !c.turnUpsideDown
  {
    var ls := Labels(c);
    assert ls[10] == FieldLabel(c, KnownMoveType);
    assert ls[11] == FieldLabel(c, Gender);
    assert ls[12] == FieldLabel(c, Rain);
    assert ls[13] == FieldLabel(c, RelativeStats);
    assert ls[14] == FieldLabel(c, UpsideDown);
  }

  /** A condition yields no fragment exactly when, field by field, nothing applies. */
  lemma FragmentsEmptyIffNothingApplies(c: Condition)
    ensures Fragments(c) == [] <==> NothingApplies(c)
  {
    LevelToHappinessLabels(c);
    BeautyToKnownMoveLabels(c);
    MoveTypeToUpsideDownLabels(c);
    var ls := Labels(c);
    PresentEmptyStep(ls, 0);
    PresentEmptyStep(ls, 1);
    PresentEmptyStep(ls, 2);
    PresentEmptyStep(ls, 3);
    PresentEmptyStep(ls, 4);
    PresentEmptyStep(ls, 5);
    PresentEmptyStep(ls, 6);
    PresentEmptyStep(ls, 7);
    PresentEmptyStep(ls, 8);
    PresentEmptyStep(ls, 9);
    PresentEmptyStep(ls, 10);
    PresentEmptyStep(ls, 11);
    PresentEmptyStep(ls, 12);
    PresentEmptyStep(ls, 13);
    PresentEmptyStep(ls, 14);
    assert Present(ls, 15) == [];
  }

  /** Positions without a label contribute nothing. */
  lemma {:induction false} PresentSkip(labels: seq<Option<string>>, k: nat, m: nat)
    requires k <= m <= |labels|
    requires forall a :: k <= a < m ==> labels[a].None?
    ensures Present(labels, k) == Present(labels, m)
    decreases m - k
  {
    if k < m {
      PresentSkip(labels, k + 1, m);
    }
  }

  /** Each fragment is non-empty. */
  lemma {:induction false} PresentNonEmpty(labels: seq<Option<string>>, k: nat)
    requires forall a :: 0 <= a < |labels| ==> labels[a].Some? ==> |labels[a].value| > 0
    ensures forall i :: 0 <= i < |Present(labels, k)| ==> |Present(labels, k)[i]| > 0
    decreases |labels| - k
  {
    if k < |labels| {
      PresentNonEmpty(labels, k + 1);
      var r := Present(labels, k);
      var head := Opt(labels[k]);
      assert r == head + Present(labels, k + 1);
      forall i | 0 <= i < |r| ensures |r[i]| > 0 {
        if i >= |head| {
          assert r[i] == Present(labels, k + 1)[i - |head|];
        }
      }
    }
  }

  /** A label given from position `k` on appears among the fragments. */
  lemma {:induction false} PresentComplete(labels: seq<Option<string>>, k: nat, a: nat)
    requires k <= a < |labels| && labels[a].Some?
    ensures exists i :: 0 <= i < |Present(labels, k)| && Present(labels, k)[i] == labels[a].value
    decreases a - k
  {
    var r := Present(labels, k);
    var head := Opt(labels[k]);
    assert r == head + Present(labels, k + 1);
    if a == k {
      assert r[0] == labels[a].value;
    } else {
      PresentComplete(labels, k + 1, a);
      var i :| 0 <= i < |Present(labels, k + 1)| && Present(labels, k + 1)[i] == labels[a].value;
      assert r[|head| + i] == Present(labels, k + 1)[i];
    }
  }

  /** Every fragment from position `k` on is a label given at some position from `k` on. */
  lemma {:induction false} PresentSound(labels: seq<Option<string>>, k: nat, i: nat)
    requires i < |Present(labels, k)|
    ensures exists a :: k <= a < |labels| && labels[a] == Some(Present(labels, k)[i])
    decreases |labels| - k
  {
    var r := Present(labels, k);
    var head := Opt(labels[k]);
    assert r == head + Present(labels, k + 1);
    if i < |head| {
      assert labels[k] == Some(r[i]);
    } else {
      PresentSound(labels, k + 1, i - |head|);
      assert r[i] == Present(labels, k + 1)[i - |head|];
    }
  }

  /** Of two labels given from position `k` on, the earlier one comes first among the fragments. */
  lemma {:induction false} PresentOrder(labels: seq<Option<string>>, k: nat, a: nat, b: nat)
    requires k <= a < b < |labels|
    requires labels[a].Some? && labels[b].Some?
    ensures exists i, j :: 0 <= i < j < |Present(labels, k)|
                        && Present(labels, k)[i] == labels[a].value
                        && Present(labels, k)[j] == labels[b].value
    decreases a - k
  {
    var r := Present(labels, k);
    var rest := Present(labels, k + 1);
    var head := Opt(labels[k]);
    assert r == head + rest;
    if a == k {
      PresentComplete(labels, k + 1, b);
      var j :| 0 <= j < |rest| && rest[j] == labels[b].value;
      assert 0 <= 0 < j + 1 < |r| && r[0] == labels[a].value && r[j + 1] == labels[b].value;
    } else {
      PresentOrder(labels, k + 1, a, b);
      var i, j :| 0 <= i < j < |rest| && rest[i] == labels[a].value && rest[j] == labels[b].value;
      var d := |head|;
      assert r[i + d] == rest[i] && r[j + d] == rest[j];
      assert 0 <= i + d < j + d < |r| && r[i + d] == labels[a].value && r[j + d] == labels[b].value;
    }
  }

  /** The positions from `k` on that carry a label, in increasing order. */
  function Positions(labels: seq<Option<string>>, k: nat): (r: seq<nat>)
    ensures forall i :: 0 <= i < |r| ==> k <= r[i] < |labels| && labels[r[i]].Some?
    ensures forall i, j :: 0 <= i < j < |r| ==> r[i] < r[j]
    ensures forall a :: k <= a < |labels| && labels[a].Some? ==> a in r
    decreases |labels| - k
  {
    if k >= |labels| then []
    else (if labels[k].Some? then [k] else []) + Positions(labels, k + 1)
  }

  /** The `i`-th fragment from position `k` on is the label at the `i`-th labelled position. */
  lemma {:induction false} PresentAtPositions(labels: seq<Option<string>>, k: nat)
    ensures |Present(labels, k)| == |Positions(labels, k)|
    ensures LabelledAt(labels, Present(labels, k), Positions(labels, k))
    decreases |labels| - k
  {
    if k < |labels| {
      PresentAtPositions(labels, k + 1);
      var rest := Present(labels, k + 1);
      var prest := Positions(labels, k + 1);
      if labels[k].Some? {
        assert Present(labels, k) == [labels[k].value] + rest;
        assert Positions(labels, k) == [k] + prest;
        LabelledAtCons(labels, labels[k].value, k, rest, prest);
      } else {
        assert Present(labels, k) == rest;
        assert Positions(labels, k) == prest;
      }
    }
  }

  /** The `i`-th fragment of `fs` is the label at the `i`-th position of `ps`. */
  ghost predicate LabelledAt(labels: seq<Option<string>>, fs: seq<string>, ps: seq<nat>) {
    forall i :: 0 <= i < |fs| && i < |ps| ==> ps[i] < |labels| && labels[ps[i]] == Some(fs[i])
  }

  lemma LabelledAtCons(labels: seq<Option<string>>, x: string, k: nat, fs: seq<string>, ps: seq<nat>)
    requires k < |labels| && labels[k] == Some(x)
    requires LabelledAt(labels, fs, ps)
    ensures LabelledAt(labels, [x] + fs, [k] + ps)
  {
    forall i | 0 <= i < |fs| + 1 && i < |ps| + 1
      ensures ([k] + ps)[i] < |labels| && labels[([k] + ps)[i]] == Some(([x] + fs)[i])
    {
      if i > 0 {
        assert ([k] + ps)[i] == ps[i - 1] && ([x] + fs)[i] == fs[i - 1];
      }
    }
  }

  /**
   * The label is built from exactly the fields that apply, in the fixed order:
   * each applicable field's fragment is among the fragments, each fragment is
   * the fragment of an applicable field, and of two applicable fields the one
   * earlier in the order comes first.
   */
  lemma FragmentsFollowFieldOrder(c: Condition, a: nat, b: nat, i: nat)
    requires a < b < 15
    ensures |Fragments(c)| == |Positions(Labels(c), 0)|
    ensures i < |Fragments(c)| ==> Labels(c)[Positions(Labels(c), 0)[i]] == Some(Fragments(c)[i])
    ensures Labels(c)[a].Some? ==>
      exists x :: 0 <= x < |Fragments(c)| && Fragments(c)[x] == Labels(c)[a].value
    ensures i < |Fragments(c)| ==>
      exists y :: 0 <= y < 15 && Labels(c)[y] == Some(Fragments(c)[i])
    ensures Labels(c)[a].Some? && Labels(c)[b].Some? ==>
      exists x, y :: 0 <= x < y < |Fragments(c)|
                  && Fragments(c)[x] == Labels(c)[a].value
                  && Fragments(c)[y] == Labels(c)[b].value
  {
    PresentAtPositions(Labels(c), 0);
    if Labels(c)[a].Some? {
      PresentComplete(Labels(c), 0, a);
    }
    if i < |Fragments(c)| {
      PresentSound(Labels(c), 0, i);
    }
    if Labels(c)[a].Some? && Labels(c)[b].Some? {
      PresentOrder(Labels(c), 0, a, b);
    }
  }

  /** No fragment holds the bullet of the separator. */
  predicate BulletFree(c: Condition) {
    FreeOf(Fragments(c), '•')
  }

  /**
   * The label determines the fragments: two conditions with the same label
   * have the same fragment list, provided no fragment holds a bullet.
   */
  lemma FormatDeterminesFragments(c1: Condition, c2: Condition)
    requires !NothingApplies(c1) && !NothingApplies(c2)
    requires BulletFree(c1) && BulletFree(c2)
    requires Format(c1) == Format(c2)
    ensures Fragments(c1) == Fragments(c2)
  {
    FragmentsEmptyIffNothingApplies(c1);
    FragmentsEmptyIffNothingApplies(c2);
    assert Separator[1] == '•' && Separator[..1] == " ";
    JoinInjective(Fragments(c1), Fragments(c2), Separator, 1);
  }

  /** A level threshold with the plain level-up trigger shows the level only. */
  lemma LevelUpShowsLevelOnly(c: Condition, n: int)
    requires n != 0
    requires c == NoCondition.(minLevel := Some(n), trigger := Some("level-up"))
    ensures Format(c) == "Lv " + IntToString(n)
  {
    var ls := Labels(c);
    LevelToHappinessLabels(c);
    BeautyToKnownMoveLabels(c);
    MoveTypeToUpsideDownLabels(c);
    PresentSkip(ls, 1, 15);
    assert ls[0] == Some("Lv " + IntToString(n));
    assert Fragments(c) == ["Lv " + IntToString(n)] + Present(ls, 1);
  }

  /** A bare trade trigger shows the trade label. */
  lemma TradeOnly(c: Condition)
    requires c == NoCondition.(trigger := Some("trade"))
    ensures Format(c) == "Intercambio"
  {
    var ls := Labels(c);
    LevelToHappinessLabels(c);
    BeautyToKnownMoveLabels(c);
    MoveTypeToUpsideDownLabels(c);
    PresentSkip(ls, 0, 3);
    PresentSkip(ls, 4, 15);
    assert ls[3] == Some("Intercambio");
    assert Fragments(c) == ["Intercambio"] + Present(ls, 4);
  }

  /** A level threshold at night: the level comes before the time of day. */
  lemma LevelAtNight(c: Condition, n: int)
    requires n != 0
    requires c == NoCondition.(minLevel := Some(n), timeOfDay := "night")
    ensures Format(c) == "Lv " + IntToString(n) + " • Noche"
  {
    var ls := Labels(c);
    LevelToHappinessLabels(c);
    BeautyToKnownMoveLabels(c);
    MoveTypeToUpsideDownLabels(c);
    PresentSkip(ls, 1, 7);
    PresentSkip(ls, 8, 15);
    assert ls[0] == Some("Lv " + IntToString(n));
    assert ls[7] == Some("Noche");
    assert Present(ls, 7) == ["Noche"] + Present(ls, 8);
    assert Fragments(c) == ["Lv " + IntToString(n)] + Present(ls, 1);
    assert Fragments(c) == ["Lv " + IntToString(n), "Noche"];
    assert Join(["Noche"], Separator) == "Noche";
  }
}
