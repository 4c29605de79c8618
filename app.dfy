/** The Streamlit dashboard: the login guard with its session flag, the
    FizzBuzz message shown for the auto-refresh counter, and the name of
    the attendance file read for a chosen date. */
module App {
  import opened Wrappers
  import opened Decimal

  // ---------------------------------------------------------------------
  // Credentials

  const AdminUser: string := "admin"
  const AdminPassword: string := "password123"

  /** `verify_credentials`: exact, case-sensitive comparison with the one
      hard-coded account; nothing is stripped or normalised. */
  function VerifyCredentials(username: string, password: string): (ok: bool)
    ensures ok <==> username == "admin" && password == "password123"
  {
    username == AdminUser && password == AdminPassword
  }

  /** Only one (username, password) pair is accepted: any two accepted
      pairs are the same pair. */
  lemma {:induction false} OneAccount(u1: string, p1: string, u2: string, p2: string)
    requires VerifyCredentials(u1, p1) && VerifyCredentials(u2, p2)
    ensures u1 == u2 && p1 == p2
  {
    assert u1 == AdminUser && u2 == AdminUser;
  }

  // ---------------------------------------------------------------------
  // FizzBuzz

  /** The message written for the refresh count. */
  datatype Message = CountIsZero | FizzBuzz | Fizz | Buzz | Count(n: int)

  /** The if/elif chain on `count`. The zero test comes first, so 0 is
      never "FizzBuzz" although it is divisible by 3 and 5. (Python's `%`
      and Dafny's agree here: the divisors are positive.) */
  function Classify(count: int): (m: Message)
    ensures m == CountIsZero <==> count == 0
    ensures m == FizzBuzz <==> count != 0 && count % 3 == 0 && count % 5 == 0
    ensures m == Fizz <==> count % 3 == 0 && count % 5 != 0
    ensures m == Buzz <==> count % 3 != 0 && count % 5 == 0
    ensures m.Count? <==> count % 3 != 0 && count % 5 != 0
    ensures m.Count? ==> m.n == count
  {
    if count == 0 then CountIsZero
    else if count % 3 == 0 && count % 5 == 0 then FizzBuzz
    else if count % 3 == 0 then Fizz
    else if count % 5 == 0 then Buzz
    else Count(count)
  }

  /** Against the usual statement of the game: "FizzBuzz" exactly for the
      nonzero multiples of 15. */
  lemma FizzBuzzIffFifteen(count: int)
    ensures Classify(count) == FizzBuzz <==> count != 0 && count % 15 == 0
  {
    var q, r := count / 15, count % 15;
    assert count % 3 == r % 3 by {
      assert count == 3 * (5 * q) + r;
    }
    assert count % 5 == r % 5 by {
      assert count == 5 * (3 * q) + r;
    }
  }

  /** The text written for a message: only a plain count is written
      after `Count: `, so the fixed messages never look like a count. */
  function Render(m: Message): (text: string)
    ensures m.Count? <==> |text| > 7 && text[..7] == "Count: "
  {
    match m
    case CountIsZero =>
      assert "Count is zero"[5] != "Count: "[5];
      "Count is zero"
    case FizzBuzz =>
      assert "FizzBuzz"[0] != "Count: "[0];
      "FizzBuzz"
    case Fizz => "Fizz"
    case Buzz => "Buzz"
    case Count(n) => "Count: " + IntToString(n)
  }

  /** Reads a message back from its text, if it is one. */
  function ParseMessage(text: string): (r: Option<Message>)
    ensures r.Some? && r.value.Count? ==> |text| > 7 && text[..7] == "Count: "
  {
    if text == "Count is zero" then Some(CountIsZero)
    else if text == "FizzBuzz" then Some(FizzBuzz)
    else if text == "Fizz" then Some(Fizz)
    else if text == "Buzz" then Some(Buzz)
    else if |text| > 7 && text[..7] == "Count: " && IsIntText(text[7..]) then Some(Count(ParseInt(text[7..])))
    else None
  }

  /** The text on screen tells which branch was taken and, for a plain
      count, which count. */
  lemma {:induction false} RenderRoundTrip(m: Message)
    ensures ParseMessage(Render(m)) == Some(m)
  {
    if m.Count? {
      var text := Render(m);
      var digits := IntToString(m.n);
      assert text[5] == ':' && text[..7] == "Count: " && text[7..] == digits;
      IntToStringRoundTrip(m.n);
    }
  }

  /** Different messages are different texts. */
  lemma RenderInjective(a: Message, b: Message)
    requires Render(a) == Render(b)
    ensures a == b
  {
    RenderRoundTrip(a);
    RenderRoundTrip(b);
  }

  /** Exactly one message, and one text, per count. */
  lemma {:induction false} OneMessagePerCount(a: int, b: int)
    requires Render(Classify(a)) == Render(Classify(b))
    ensures Classify(a) == Classify(b)
    ensures Classify(a).Count? ==> a == b
  {
    RenderInjective(Classify(a), Classify(b));
  }

  // ---------------------------------------------------------------------
  // The attendance file

  datatype Date = Date(year: nat, month: nat, day: nat)

  predicate IsLeap(year: nat) {
    year % 4 == 0 && (year % 100 != 0 || year % 400 == 0)
  }

  function DaysInMonth(year: nat, month: nat): nat
    requires 1 <= month <= 12
  {
    if month == 2 then (if IsLeap(year) then 29 else 28)
    else if month == 4 || month == 6 || month == 9 || month == 11 then 30
    else 31
  }

  /** A date `datetime.date` can hold. */
  predicate ValidDate(d: Date) {
    1 <= d.year <= 9999 && 1 <= d.month <= 12 && 1 <= d.day <= DaysInMonth(d.year, d.month)
  }

  /** `strftime("%d-%m-%Y")`: day and month on two digits, the year on
      four, separated by dashes. */
  function DateString(d: Date): (s: string)
    requires ValidDate(d)
    ensures |s| == 10 && s[2] == '-' && s[5] == '-'
  {
    ZeroPad(d.day, 2) + "-" + ZeroPad(d.month, 2) + "-" + ZeroPad(d.year, 4)
  }

  const AttendancePrefix: string := "Attendance/Attendance_"
  const AttendanceSuffix: string := ".csv"

  /** `f"Attendance/Attendance_{selected_date_str}.csv"` */
  function AttendanceFile(d: Date): (path: string)
    requires ValidDate(d)
    ensures |path| == 36 && path[..22] == AttendancePrefix && path[32..] == AttendanceSuffix
  {
    AttendancePrefix + DateString(d) + AttendanceSuffix
  }

  lemma ConcatParts(a: string, b: string)
    ensures (a + b)[..|a|] == a && (a + b)[|a|..] == b
  {
  }

  /** Where each field sits in the date string: the day at 0..2, the
      month at 3..5 and the year at 6..10, between two dashes. */
  lemma {:induction false} DateStringLayout(d: Date)
    requires ValidDate(d)
    ensures var s := DateString(d);
            |s| == 10 && s[..2] == ZeroPad(d.day, 2) && s[2] == '-' &&
            s[3..5] == ZeroPad(d.month, 2) && s[5] == '-' && s[6..] == ZeroPad(d.year, 4)
  {
    var dd, mm, yyyy := ZeroPad(d.day, 2), ZeroPad(d.month, 2), ZeroPad(d.year, 4);
    var head := dd + "-" + mm + "-";
    ConcatParts(head, yyyy);
    ConcatParts(dd + "-", mm + "-");
    ConcatParts(dd, "-");
    assert head[3..5] == mm;
  }

  /** The date string sits at 22..32 of the file name, between the fixed
      prefix and suffix. */
  lemma {:induction false} AttendanceFileLayout(d: Date)
    requires ValidDate(d)
    ensures var path := AttendanceFile(d);
            |path| == 36 && path[..22] == AttendancePrefix && path[22..32] == DateString(d) &&
            path[32..] == AttendanceSuffix
  {
    DateStringLayout(d);
    ConcatParts(AttendancePrefix + DateString(d), AttendanceSuffix);
    ConcatParts(AttendancePrefix, DateString(d));
  }

  /** Reads the date back out of an attendance file name, if it is one. */
  function ParseAttendanceFile(path: string): (r: Option<Date>)
    ensures r.Some? ==> ValidDate(r.value) && |path| == 36 && path[..22] == AttendancePrefix
  {
    if |path| == 36 && path[..22] == AttendancePrefix && path[32..] == AttendanceSuffix
       && path[24] == '-' && path[27] == '-'
       && IsDigits(path[22..24]) && IsDigits(path[25..27]) && IsDigits(path[28..32])
    then
      var d := Date(ParseDigits(path[28..32]), ParseDigits(path[25..27]), ParseDigits(path[22..24]));
      if ValidDate(d) then Some(d) else None
    else None
  }

  /** The file name determines the date it was built from: each date has
      its own attendance file. */
  lemma {:induction false} AttendanceFileRoundTrip(d: Date)
    requires ValidDate(d)
    ensures ParseAttendanceFile(AttendanceFile(d)) == Some(d)
  {
    AttendanceFileLayout(d);
    DateStringLayout(d);
    var path, date := AttendanceFile(d), DateString(d);
    assert path[22..24] == date[..2] && path[25..27] == date[3..5] && path[28..32] == date[6..];
    assert path[24] == date[2] && path[27] == date[5];
  }

  lemma AttendanceFileInjective(d1: Date, d2: Date)
    requires ValidDate(d1) && ValidDate(d2) && AttendanceFile(d1) == AttendanceFile(d2)
    ensures d1 == d2
  {
    AttendanceFileRoundTrip(d1);
    AttendanceFileRoundTrip(d2);
  }

  // ---------------------------------------------------------------------
  // The page, one Streamlit run at a time

  /** What one run of the script is given: the login form's fields and
      whether its button was clicked, the refresh count and the date
      picked. */
  datatype Input = Input(username: string, password: string, clicked: bool, count: nat, date: Date)

  /** What one run of the script shows. */
  datatype View =
    | LoginForm
    | LoginSucceeded
    | LoginRejected
    | Dashboard(message: string, dateString: string, attendanceFile: string)

  /** The flag after one run, from the flag before it (None when
      `authenticated` is not yet in the session state). */
  function AuthStep(before: Option<bool>, input: Input): (after: bool)
    ensures before == Some(true) ==> after
    ensures input.clicked && VerifyCredentials(input.username, input.password) ==> after
    ensures after && before != Some(true) ==> input.clicked && VerifyCredentials(input.username, input.password)
  {
    (before == Some(true)) || (input.clicked && VerifyCredentials(input.username, input.password))
  }

  /** The flag after a sequence of runs. */
  function AuthAfter(before: Option<bool>, inputs: seq<Input>): (after: bool)
    ensures before == Some(true) ==> after
  {
    if inputs == [] then before == Some(true)
    else AuthStep(Some(AuthAfter(before, inputs[..|inputs| - 1])), inputs[|inputs| - 1])
  }

  /** Once set, the flag stays set: no run clears it. */
  lemma {:induction false} AuthMonotone(before: Option<bool>, inputs: seq<Input>, k: nat)
    requires k <= |inputs| && AuthAfter(before, inputs[..k])
    ensures AuthAfter(before, inputs)
    decreases |inputs|
  {
    if k == |inputs| {
      assert inputs[..k] == inputs;
    } else {
      var init := inputs[..|inputs| - 1];
      assert init[..k] == inputs[..k];
      AuthMonotone(before, init, k);
    }
  }

  /** Starting without the flag, it is set after some runs exactly when
      one of them submitted the right credentials. */
  lemma {:induction false} AuthIffLogin(inputs: seq<Input>)
    ensures AuthAfter(None, inputs) <==>
            exists i :: 0 <= i < |inputs| && inputs[i].clicked && VerifyCredentials(inputs[i].username, inputs[i].password)
  {
    if inputs != [] {
      var init := inputs[..|inputs| - 1];
      AuthIffLogin(init);
      var last := inputs[|inputs| - 1];
      if AuthAfter(None, inputs) && !(last.clicked && VerifyCredentials(last.username, last.password)) {
        var i :| 0 <= i < |init| && init[i].clicked && VerifyCredentials(init[i].username, init[i].password);
        assert inputs[i] == init[i];
      }
      if exists i :: 0 <= i < |inputs| && inputs[i].clicked && VerifyCredentials(inputs[i].username, inputs[i].password) {
        var i :| 0 <= i < |inputs| && inputs[i].clicked && VerifyCredentials(inputs[i].username, inputs[i].password);
        if i < |init| {
          assert init[i] == inputs[i];
        }
      }
    }
  }

  /** `st.session_state`, as far as the script uses it. */
  class Session {
    /** `st.session_state.authenticated`; None while the key is absent. */
    var authenticated: Option<bool>

    constructor()
      ensures authenticated == None
    {
      authenticated := None;
    }

    /** One run of app.py: default the flag to False, then either the
        login form (setting the flag on a right submission) or, when the
        flag was already set, the dashboard. */
    method Run(input: Input) returns (view: View)
      requires ValidDate(input.date)
      modifies this
      ensures authenticated == Some(AuthStep(old(authenticated), input))
      ensures old(authenticated) == Some(true) ==>
                view == Dashboard(Render(Classify(input.count)), DateString(input.date), AttendanceFile(input.date))
      ensures old(authenticated) != Some(true) ==>
                view == (if !input.clicked then LoginForm
                         else if VerifyCredentials(input.username, input.password) then LoginSucceeded
                         else LoginRejected)
    {
      if authenticated == None {
        authenticated := Some(false);
      }
      if !authenticated.value {
        view := LoginForm;
        if input.clicked {
          if VerifyCredentials(input.username, input.password) {
            authenticated := Some(true);
            view := LoginSucceeded;
          } else {
            view := LoginRejected;
          }
        }
      } else {
        var message := Render(Classify(input.count));
        var selected := DateString(input.date);
        var attendanceFile := AttendanceFile(input.date);
        view := Dashboard(message, selected, attendanceFile);
      }
    }
  }
}
