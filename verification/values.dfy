/** Cell values of a data frame and the order the window ranks them by.

    A column of the source holds values of one type; the order below is a
    total order on all values so that the ranking is defined on every input.
    Null is the least value, which is how a descending sort with nulls last
    ranks it: a null order value never beats a non-null one. */
module Values {
  import opened Calendar

  datatype Option<T> = None | Some(value: T)

  datatype Value =
    | Null
    | Bool(b: bool)
    | Int(i: int)
    | Real(r: real)
    | Text(s: string)
    | DateV(d: CivilDate)

  function Rank(v: Value): nat {
    match v
    case Null => 0
    case Bool(_) => 1
    case Int(_) => 2
    case Real(_) => 3
    case Text(_) => 4
    case DateV(_) => 5
  }

  /** Lexicographic order on strings by code point (Python's str order). */
  predicate TextLe(s: string, t: string)
    decreases |s|
  {
    |s| == 0 || (|t| > 0 && (s[0] < t[0] || (s[0] == t[0] && TextLe(s[1..], t[1..]))))
  }

  predicate TextLt(s: string, t: string) {
    TextLe(s, t) && s != t
  }

  predicate DateLe(a: Date, b: Date) {
    a.year < b.year || (a.year == b.year && (a.month < b.month || (a.month == b.month && a.day <= b.day)))
  }

  /** On valid dates the field-by-field order is the order of time: one date
      comes no later than another exactly when its day number is no larger. */
  lemma DateLeIsDayOrder(a: CivilDate, b: CivilDate)
    ensures DateLe(a, b) <==> DayNumber(a) <= DayNumber(b)
  {
    if a.year < b.year {
      YearStartIncreasing(a.year + 1, b.year);
    } else if a.year > b.year {
      YearStartIncreasing(b.year + 1, a.year);
    } else if a.month < b.month {
      MonthsInOrder(a.year, a.month, b.month);
    } else if a.month > b.month {
      MonthsInOrder(a.year, b.month, a.month);
    }
  }

  /** The ranking order: values of different kinds by kind, values of one kind naturally. */
  predicate Le(a: Value, b: Value) {
    if Rank(a) != Rank(b) then Rank(a) < Rank(b)
    else match (a, b)
      case (Bool(x), Bool(y)) => !x || y
      case (Int(x), Int(y)) => x <= y
      case (Real(x), Real(y)) => x <= y
      case (Text(x), Text(y)) => TextLe(x, y)
      case (DateV(x), DateV(y)) => DateLe(x, y)
      case _ => true
  }

  lemma {:induction false} TextLeRefl(s: string)
    ensures TextLe(s, s)
    decreases |s|
  {
    if |s| > 0 {
      TextLeRefl(s[1..]);
    }
  }

  lemma {:induction false} TextLeTotal(s: string, t: string)
    ensures TextLe(s, t) || TextLe(t, s)
    decreases |s|
  {
    if |s| > 0 && |t| > 0 && s[0] == t[0] {
      TextLeTotal(s[1..], t[1..]);
    }
  }

  lemma {:induction false} TextLeTrans(s: string, t: string, u: string)
    requires TextLe(s, t) && TextLe(t, u)
    ensures TextLe(s, u)
    decreases |s|
  {
    if |s| > 0 && s[0] == t[0] && t[0] == u[0] {
      TextLeTrans(s[1..], t[1..], u[1..]);
    }
  }

  lemma {:induction false} TextLeAntisym(s: string, t: string)
    requires TextLe(s, t) && TextLe(t, s)
    ensures s == t
    decreases |s|
  {
    if |s| > 0 {
      TextLeAntisym(s[1..], t[1..]);
      assert s == [s[0]] + s[1..];
      assert t == [t[0]] + t[1..];
    }
  }

  lemma TextLtTrans(s: string, t: string, u: string)
    requires TextLt(s, t) && TextLt(t, u)
    ensures TextLt(s, u)
  {
    TextLeTrans(s, t, u);
    if s == u {
      TextLeAntisym(s, t);
    }
  }

  lemma TextLtTotal(s: string, t: string)
    ensures s == t || TextLt(s, t) || TextLt(t, s)
  {
    TextLeTotal(s, t);
  }

  lemma LeRefl(a: Value)
    ensures Le(a, a)
  {
    if a.Text? {
      TextLeRefl(a.s);
    }
  }

  lemma LeTotal(a: Value, b: Value)
    ensures Le(a, b) || Le(b, a)
  {
    if a.Text? && b.Text? {
      TextLeTotal(a.s, b.s);
    }
  }

  lemma LeTrans(a: Value, b: Value, c: Value)
    requires Le(a, b) && Le(b, c)
    ensures Le(a, c)
  {
    if a.Text? && b.Text? && c.Text? {
      TextLeTrans(a.s, b.s, c.s);
    }
  }

  lemma LeAntisym(a: Value, b: Value)
    requires Le(a, b) && Le(b, a)
    ensures a == b
  {
    if a.Text? && b.Text? {
      TextLeAntisym(a.s, b.s);
    }
  }
}
