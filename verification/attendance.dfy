/** The two directions of the `Attended` field: how a stored value is shown as
    a checkbox, and how an edited value is written back as "Yes" or "No". */
module Attendance {
  import opened Text
  import opened Values

  const ATTENDED_COLUMN: string := "Attended"

  /** The Arabic word for "yes". */
  const NAAM: string := "\U{646}\U{639}\U{645}"

  /** Lower-cased renderings the table shows as ticked. */
  const TICKED_TOKENS: set<string> := {"yes", NAAM, "true"}

  /** The checkbox state of a stored value: `str(v).lower()` is a ticked token. */
  predicate Ticked(v: Value)
    ensures Ticked(v) ==> Truthy(v)
  {
    var shown := Lower(Render(v));
    assert v.Int? ==> shown[0] == Render(v)[0];
    shown in TICKED_TOKENS
  }

  /** The checkbox is ticked exactly for "yes" and "true" in any mix of case,
      for the Arabic "yes" as written, and for the boolean true; never for a
      number or a missing value. */
  lemma TickedExactly(v: Value)
    ensures Ticked(v) <==> match v
      case Str(s) => SpellsIgnoringCase(s, "yes") || SpellsIgnoringCase(s, "true") || s == NAAM
      case Bool(b) => b
      case Int(_) => false
      case Missing => false
  {
    match v
    case Str(s) =>
      TextTicked(s);
    case Bool(b) =>
      if b {
        assert Lower("True") == "true";
      } else {
        assert |Lower("False")| == 5;
      }
    case Int(i) =>
      NumberNotTicked(i);
    case Missing =>
      assert Lower("nan") == "nan";
  }

  /** A text is ticked exactly when it spells "yes" or "true" in any case, or
      is the Arabic "yes" as written. */
  lemma TextTicked(s: string)
    ensures Ticked(Str(s)) <==>
              SpellsIgnoringCase(s, "yes") || SpellsIgnoringCase(s, "true") || s == NAAM
  {
    LowerIsWord(s, "yes");
    LowerIsWord(s, "true");
    LowerOfLetterless(s, NAAM);
  }

  /** A number is never ticked: its rendering starts with a digit or a minus
      sign, which no ticked token does. */
  lemma NumberNotTicked(i: int)
    ensures !Ticked(Int(i))
  {
    var r := Lower(IntToString(i));
    assert r[0] == LowerChar(IntToString(i)[0]);
    assert r[0] != 'y' && r[0] != 't' && r[0] != NAAM[0];
  }

  /** `changes[ATTENDED_COLUMN] = "Yes" if changes[ATTENDED_COLUMN] else "No"`
      when the field was changed. */
  function WriteBackAttended(changes: map<string, Value>): (out: map<string, Value>)
    ensures out.Keys == changes.Keys
    ensures forall k :: k in changes && k != ATTENDED_COLUMN ==> out[k] == changes[k]
    ensures ATTENDED_COLUMN in changes ==>
              out[ATTENDED_COLUMN] in {Str("Yes"), Str("No")}
              && (out[ATTENDED_COLUMN] == Str("Yes") <==> Truthy(changes[ATTENDED_COLUMN]))
    ensures ATTENDED_COLUMN !in changes ==> out == changes
  {
    if ATTENDED_COLUMN in changes then
      changes[ATTENDED_COLUMN := Str(if Truthy(changes[ATTENDED_COLUMN]) then "Yes" else "No")]
    else
      changes
  }

  /** The value a stored `Attended` value is saved as when its checkbox state
      is written back. */
  function Resaved(v: Value): Value {
    WriteBackAttended(map[ATTENDED_COLUMN := Bool(Ticked(v))])[ATTENDED_COLUMN]
  }

  /** Display followed by write-back: the affirmative spellings become "Yes",
      everything else becomes "No". */
  lemma ResavedExactly(v: Value)
    ensures Resaved(v) in {Str("Yes"), Str("No")}
    ensures Resaved(v) == Str("Yes") <==> match v
      case Str(s) => SpellsIgnoringCase(s, "yes") || SpellsIgnoringCase(s, "true") || s == NAAM
      case Bool(b) => b
      case Int(_) => false
      case Missing => false
  {
    TickedExactly(v);
  }

  /** The canonical values survive a display and write-back unchanged, so the
      round trip is idempotent. */
  lemma ResavedIdempotent(v: Value)
    ensures Resaved(Str("Yes")) == Str("Yes")
    ensures Resaved(Str("No")) == Str("No")
    ensures Resaved(Resaved(v)) == Resaved(v)
  {
    TickedExactly(Str("Yes"));
    TickedExactly(Str("No"));
    ResavedExactly(v);
  }
}
