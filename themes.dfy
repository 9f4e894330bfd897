/**
 * Colour themes. A theme is a position in a six-entry colour table; the theme of
 * a board that is won moves one step up the table, the theme of a board that is
 * lost one step down, both clamped to the table. `SequenceTheme` objects create
 * their winner and loser themes on first access and keep them.
 */
module Themes {
  import opened Wrappers

  /** The colours of a theme. */
  datatype ThemeProps = ThemeProps(backgroundColor: string, color: string)

  /** What determines a theme: a table of colours and an index into it. */
  datatype DeterminingProps = DeterminingProps(index: int, all: seq<ThemeProps>)

  const AllLightThemeProps: seq<ThemeProps> := [
    ThemeProps("hsl(57 5% 85%)", "hsl(240 5% 80%)"),
    ThemeProps("hsl(57 5% 87%)", "hsl(240 5% 78%)"),
    ThemeProps("hsl(57 5% 92%)", "hsl(240 5% 72%)"),
    ThemeProps("hsl(57 5% 95%)", "hsl(240 5% 65%)"),
    ThemeProps("hsl(57 5% 95%)", "hsl(240 5% 45%)"),
    ThemeProps("hsl(57 5% 95%)", "hsl(240 5% 15%)")
  ]

  const AllDarkThemeProps: seq<ThemeProps> := [
    ThemeProps("hsl(0 0 5%)", "hsl(0 0 10%)"),
    ThemeProps("hsl(0 0 7%)", "hsl(0 0 12%)"),
    ThemeProps("hsl(0 0 9%)", "hsl(0 0 20%)"),
    ThemeProps("hsl(0 0 10%)", "hsl(0 0 30%)"),
    ThemeProps("hsl(0 0 10%)", "hsl(0 0 40%)"),
    ThemeProps("hsl(0 0 10%)", "hsl(0 0 60%)")
  ]

  /** `Math.min` on integers. */
  function Min(a: int, b: int): (m: int)
    ensures m <= a && m <= b && (m == a || m == b)
  {
    if a <= b then a else b
  }

  /** `Math.max` on integers. */
  function Max(a: int, b: int): (m: int)
    ensures m >= a && m >= b && (m == a || m == b)
  {
    if a >= b then a else b
  }

  /** One step up, stopping at the last entry of the dark table. */
  function DarkThemeWinner(p: DeterminingProps): (q: DeterminingProps)
    ensures q.all == p.all && q.index <= |AllDarkThemeProps| - 1
    ensures p.index < |AllDarkThemeProps| - 1 ==> q.index == p.index + 1
    ensures p.index >= |AllDarkThemeProps| - 1 ==> q.index == |AllDarkThemeProps| - 1
  {
    DeterminingProps(Min(p.index + 1, |AllDarkThemeProps| - 1), p.all)
  }

  /** One step down, stopping at 0. */
  function DarkThemeLoser(p: DeterminingProps): (q: DeterminingProps)
    ensures q.all == p.all && q.index >= 0
    ensures p.index > 0 ==> q.index == p.index - 1
    ensures p.index <= 0 ==> q.index == 0
  {
    DeterminingProps(Max(p.index - 1, 0), p.all)
  }

  /** One step up, stopping at the last entry of the light table. */
  function LightThemeWinner(p: DeterminingProps): (q: DeterminingProps)
    ensures q.all == p.all && q.index <= |AllLightThemeProps| - 1
    ensures p.index < |AllLightThemeProps| - 1 ==> q.index == p.index + 1
    ensures p.index >= |AllLightThemeProps| - 1 ==> q.index == |AllLightThemeProps| - 1
  {
    DeterminingProps(Min(p.index + 1, |AllLightThemeProps| - 1), p.all)
  }

  /** One step down, stopping at 0. */
  function LightThemeLoser(p: DeterminingProps): (q: DeterminingProps)
    ensures q.all == p.all && q.index >= 0
    ensures p.index > 0 ==> q.index == p.index - 1
    ensures p.index <= 0 ==> q.index == 0
  {
    DeterminingProps(Max(p.index - 1, 0), p.all)
  }

  /** `all[index]`; JavaScript yields `undefined` (here `None`) outside the table. */
  function DetermineThemeProps(p: DeterminingProps): (r: Option<ThemeProps>)
    ensures r.Some? <==> 0 <= p.index < |p.all|
    ensures r.Some? ==> r.value == p.all[p.index]
  {
    if 0 <= p.index < |p.all| then Some(p.all[p.index]) else None
  }

  /** The three functions a sequence theme is built with and hands on to the themes it derives. */
  datatype Family = Family(
    determine: DeterminingProps -> Option<ThemeProps>,
    createWinner: DeterminingProps -> DeterminingProps,
    createLoser: DeterminingProps -> DeterminingProps)

  /** The value of a sequence theme: its determining props and its family. */
  datatype Theme = Theme(determiningProps: DeterminingProps, family: Family)

  /** The colours of a theme. */
  function Props(t: Theme): Option<ThemeProps> {
    t.family.determine(t.determiningProps)
  }

  /** `winnerTheme`, as a value. */
  function WinnerOf(t: Theme): Theme {
    Theme(t.family.createWinner(t.determiningProps), t.family)
  }

  /** `loserTheme`, as a value. */
  function LoserOf(t: Theme): Theme {
    Theme(t.family.createLoser(t.determiningProps), t.family)
  }

  const LightFamily: Family := Family(DetermineThemeProps, LightThemeWinner, LightThemeLoser)
  const DarkFamily: Family := Family(DetermineThemeProps, DarkThemeWinner, DarkThemeLoser)

  /** `lightTheme`: the light table, starting at its last entry. */
  const LightTheme: Theme := Theme(DeterminingProps(5, AllLightThemeProps), LightFamily)

  /** `darkTheme`: the dark table, starting at its last entry. */
  const DarkTheme: Theme := Theme(DeterminingProps(5, AllDarkThemeProps), DarkFamily)

  /** The theme reached by a sequence of winner (`true`) and loser (`false`) steps. */
  function Derive(t: Theme, steps: seq<bool>): Theme
    decreases |steps|
  {
    if steps == [] then t
    else Derive(if steps[0] then WinnerOf(t) else LoserOf(t), steps[1..])
  }

  /** A theme of one of the two shipped families, inside its own table. */
  ghost predicate InTable(t: Theme) {
    ((t.family == LightFamily && t.determiningProps.all == AllLightThemeProps) ||
     (t.family == DarkFamily && t.determiningProps.all == AllDarkThemeProps)) &&
    0 <= t.determiningProps.index <= 5
  }

  /** A winner or loser step stays inside the table and keeps the family. */
  lemma StepInTable(t: Theme)
    requires InTable(t)
    ensures InTable(WinnerOf(t)) && InTable(LoserOf(t))
    ensures WinnerOf(t).family == t.family && LoserOf(t).family == t.family
  {
  }

  /** Every theme derived from a shipped theme has an index in 0..5, and so has colours:
      the entry of its table at that index. */
  lemma {:induction false} DerivedInTable(t: Theme, steps: seq<bool>)
    requires InTable(t)
    ensures InTable(Derive(t, steps)) && Derive(t, steps).family == t.family
    ensures var d := Derive(t, steps).determiningProps;
      Props(Derive(t, steps)) == Some(d.all[d.index])
    decreases |steps|
  {
    if steps != [] {
      StepInTable(t);
      DerivedInTable(if steps[0] then WinnerOf(t) else LoserOf(t), steps[1..]);
    }
  }

  /** Both shipped themes start at the top of their table, so their winner theme has the
      same index and the same colours as the base theme. */
  lemma BaseWinnerIsBase()
    ensures WinnerOf(LightTheme).determiningProps == LightTheme.determiningProps
    ensures Props(WinnerOf(LightTheme)) == Props(LightTheme) == Some(AllLightThemeProps[5])
    ensures WinnerOf(DarkTheme).determiningProps == DarkTheme.determiningProps
    ensures Props(WinnerOf(DarkTheme)) == Props(DarkTheme) == Some(AllDarkThemeProps[5])
  {
  }

  /** A theme object. Its colours are computed once, from its determining props; its winner
      and loser themes are built on first access and then kept. */
  class SequenceTheme {
    const determiningProps: DeterminingProps
    const determine: DeterminingProps -> Option<ThemeProps>
    const createWinner: DeterminingProps -> DeterminingProps
    const createLoser: DeterminingProps -> DeterminingProps
    const props: Option<ThemeProps>
    var cachedWinner: SequenceTheme?
    var cachedLoser: SequenceTheme?

    ghost var Repr: set<object>

    /** The theme value this object stands for. */
    function Spec(): (t: Theme)
      ensures t.determiningProps == determiningProps && t.family.determine == determine
      ensures t.family.createWinner == createWinner && t.family.createLoser == createLoser
    {
      Theme(determiningProps, Family(determine, createWinner, createLoser))
    }

    /** The colours match the determining props, and each cached theme is the winner
        (loser) theme of this one. */
    ghost predicate Valid()
      reads this, Repr
      ensures Valid() ==> this in Repr
      decreases Repr
    {
      this in Repr && props == Props(Spec()) &&
      (cachedWinner != null ==>
        cachedWinner in Repr && cachedWinner.Repr <= Repr && this !in cachedWinner.Repr &&
        cachedWinner.Valid() && cachedWinner.Spec() == WinnerOf(Spec())) &&
      (cachedLoser != null ==>
        cachedLoser in Repr && cachedLoser.Repr <= Repr && this !in cachedLoser.Repr &&
        cachedLoser.Valid() && cachedLoser.Spec() == LoserOf(Spec()))
    }

    constructor (dp: DeterminingProps, determine: DeterminingProps -> Option<ThemeProps>,
                 createWinner: DeterminingProps -> DeterminingProps,
                 createLoser: DeterminingProps -> DeterminingProps)
      ensures Valid() && fresh(Repr)
      ensures Spec() == Theme(dp, Family(determine, createWinner, createLoser))
      ensures props == determine(dp) && cachedWinner == null && cachedLoser == null
    {
      this.determiningProps := dp;
      this.determine := determine;
      this.createWinner := createWinner;
      this.createLoser := createLoser;
      this.props := determine(dp);
      cachedWinner := null;
      cachedLoser := null;
      Repr := {this};
    }

    /** The `backgroundColor` getter; `None` stands for reading a field of `undefined`. */
    function BackgroundColor(): (c: Option<string>)
      ensures c.Some? <==> props.Some?
      ensures c.Some? ==> c.value == props.value.backgroundColor
    {
      if props.Some? then Some(props.value.backgroundColor) else None
    }

    /** The `color` getter; `None` stands for reading a field of `undefined`. */
    function Color(): (c: Option<string>)
      ensures c.Some? <==> props.Some?
      ensures c.Some? ==> c.value == props.value.color
    {
      if props.Some? then Some(props.value.color) else None
    }

    /** The `winnerTheme` getter: the cached winner theme, created on the first read. */
    method WinnerTheme() returns (t: SequenceTheme)
      requires Valid()
      modifies this
      ensures Valid() && t.Valid() && t.Spec() == WinnerOf(Spec())
      ensures cachedWinner == t && cachedLoser == old(cachedLoser)
      ensures old(cachedWinner) != null ==> t == old(cachedWinner) && Repr == old(Repr)
      ensures old(cachedWinner) == null ==> fresh(t.Repr) && Repr == old(Repr) + t.Repr
    {
      if cachedWinner == null {
        var created := new SequenceTheme(createWinner(determiningProps), determine, createWinner, createLoser);
        cachedWinner := created;
        Repr := Repr + created.Repr;
      }
      t := cachedWinner;
    }

    /** The `loserTheme` getter: the cached loser theme, created on the first read. */
    method LoserTheme() returns (t: SequenceTheme)
      requires Valid()
      modifies this
      ensures Valid() && t.Valid() && t.Spec() == LoserOf(Spec())
      ensures cachedLoser == t && cachedWinner == old(cachedWinner)
      ensures old(cachedLoser) != null ==> t == old(cachedLoser) && Repr == old(Repr)
      ensures old(cachedLoser) == null ==> fresh(t.Repr) && Repr == old(Repr) + t.Repr
    {
      if cachedLoser == null {
        var created := new SequenceTheme(createLoser(determiningProps), determine, createWinner, createLoser);
        cachedLoser := created;
        Repr := Repr + created.Repr;
      }
      t := cachedLoser;
    }
  }

  /** The exported `lightTheme` object. */
  method CreateLightTheme() returns (t: SequenceTheme)
    ensures fresh(t.Repr) && t.Valid() && t.Spec() == LightTheme
  {
    t := new SequenceTheme(DeterminingProps(5, AllLightThemeProps), DetermineThemeProps,
                           LightThemeWinner, LightThemeLoser);
  }

  /** The exported `darkTheme` object. */
  method CreateDarkTheme() returns (t: SequenceTheme)
    ensures fresh(t.Repr) && t.Valid() && t.Spec() == DarkTheme
  {
    t := new SequenceTheme(DeterminingProps(5, AllDarkThemeProps), DetermineThemeProps,
                           DarkThemeWinner, DarkThemeLoser);
  }
}
