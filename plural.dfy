/** The Russian word for "task" that follows the number of active tasks in the
    header ("N задач осталось"): `getTaskWord` in src/App.tsx. */
module Plural {

  /** Nominative singular, after 1, 21, 31, ... */
  const One: string := "задача"
  /** Genitive singular, after 2-4, 22-24, ... */
  const Few: string := "задачи"
  /** Genitive plural, after 0, 5-20, 25-30, ... */
  const Many: string := "задач"

  /** JavaScript's `%` on integers: it truncates toward zero, so the remainder
      takes the sign of the dividend (Dafny's `%` never goes negative). */
  function JsRem(a: int, m: int): (r: int)
    requires m > 0
    ensures a >= 0 ==> r == a % m
    ensures a < 0 ==> -m < r <= 0
  {
    if a >= 0 then a % m else -((-a) % m)
  }

  /** Truncating remainders are symmetric: negating the dividend negates the remainder. */
  lemma JsRemNegate(a: int, m: int)
    requires m > 0
    ensures JsRem(-a, m) == -JsRem(a, m)
  {
  }

  /** getTaskWord: the if-chain on the last two digits and the last digit. */
  function GetTaskWord(count: int): (w: string)
    ensures w == One || w == Few || w == Many
  {
    var lastDigit := JsRem(count, 10);
    var lastTwoDigits := JsRem(count, 100);
    if lastTwoDigits >= 11 && lastTwoDigits <= 19 then Many
    else if lastDigit == 1 then One
    else if lastDigit >= 2 && lastDigit <= 4 then Few
    else Many
  }

  /** The plural rule of Russian for whole numbers, as usually stated: "one"
      ends in 1 but not 11, "few" ends in 2-4 but not 12-14, "many" is the
      rest. */
  function RussianPlural(n: nat): (w: string) {
    if n % 10 == 1 && n % 100 != 11 then One
    else if 2 <= n % 10 <= 4 && !(12 <= n % 100 <= 14) then Few
    else Many
  }

  /** A number written as `10 * m + b` with a digit `b` ends in `b`. */
  lemma LastDigitOf(n: int, m: int, b: int)
    requires n == 10 * m + b && 0 <= b < 10
    ensures n % 10 == b
  {
  }

  /** The last digit of a number is the last digit of its last two digits. */
  lemma LastDigitOfLastTwo(n: nat)
    ensures (n % 100) % 10 == n % 10
  {
    var t := n % 100;
    var b := t % 10;
    assert n == 100 * (n / 100) + t;
    assert t == 10 * (t / 10) + b && 0 <= b < 10;
    LastDigitOf(n, 10 * (n / 100) + t / 10, b);
  }

  /** Teen endings (11-19) always take "задач". */
  lemma TaskWordTeens(n: int)
    requires n >= 0 && 11 <= n % 100 <= 19
    ensures GetTaskWord(n) == Many
  {
  }

  /** Outside the teens the last digit decides: 1 gives "задача", 2-4 give
      "задачи", anything else "задач". */
  lemma TaskWordLastDigit(n: int)
    requires n >= 0 && !(11 <= n % 100 <= 19)
    ensures n % 10 == 1 ==> GetTaskWord(n) == One
    ensures 2 <= n % 10 <= 4 ==> GetTaskWord(n) == Few
    ensures n % 10 == 0 || n % 10 >= 5 ==> GetTaskWord(n) == Many
  {
  }

  /** getTaskWord agrees with the grammar's rule on every count it is given. */
  lemma TaskWordIsRussianPlural(n: nat)
    ensures GetTaskWord(n) == RussianPlural(n)
  {
    LastDigitOfLastTwo(n);
    var t := n % 100;
    if 11 <= t <= 19 {
      assert t / 10 == 1;
      assert t % 10 == t - 10;
    }
  }

  /** Only the last two digits matter. */
  lemma TaskWordPeriodic(n: nat)
    ensures GetTaskWord(n) == GetTaskWord(n % 100)
  {
    LastDigitOfLastTwo(n);
  }

  /** A negative count (which activeCount never is) always gives "задач", since
      JavaScript's remainders are then never positive. */
  lemma TaskWordNegative(n: int)
    requires n < 0
    ensures GetTaskWord(n) == Many
  {
  }

  /** A few counts, worked out. */
  lemma TaskWordExamples()
    ensures GetTaskWord(0) == Many && GetTaskWord(1) == One && GetTaskWord(3) == Few
    ensures GetTaskWord(5) == Many && GetTaskWord(11) == Many && GetTaskWord(14) == Many
    ensures GetTaskWord(21) == One && GetTaskWord(22) == Few && GetTaskWord(111) == Many
  {
  }
}
