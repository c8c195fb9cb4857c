/**
 * The text the "Copiar" button puts on the clipboard: a header with the
 * day's date followed by one numbered line per collaborator who is not
 * away, in the order the store returns them (the query filters but does
 * not sort).
 */
module ClipboardReport {
  import opened Collaborators
  import opened Decimal

  /** A calendar date as `datetime.now()` yields it. */
  datatype Date = Date(day: nat, month: nat, year: nat)

  predicate ValidDate(d: Date)
  {
    1 <= d.day <= 31 && 1 <= d.month <= 12 && 1 <= d.year <= 9999
  }

  const TITLE: string := "*DISPENSA ATUALIZADA* "

  /** The date as `strftime('%d/%m/%Y')` prints it. */
  function DateText(d: Date): string
  {
    ZeroPad(d.day, 2) + "/" + ZeroPad(d.month, 2) + "/" + ZeroPad(d.year, 4)
  }

  /** For a real date the text is DD/MM/YYYY, and each field reads back as the date's own. */
  lemma DateTextRoundTrip(d: Date)
    requires ValidDate(d)
    ensures var s := DateText(d);
      |s| == 10 && s[2] == '/' && s[5] == '/' &&
      AllDigits(s[..2]) && AllDigits(s[3..5]) && AllDigits(s[6..]) &&
      Value(s[..2]) == d.day && Value(s[3..5]) == d.month && Value(s[6..]) == d.year
  {
    DigitsLength(d.day, 2);
    DigitsLength(d.month, 2);
    DigitsLength(d.year, 4);
    ZeroPadValue(d.day, 2);
    ZeroPadValue(d.month, 2);
    ZeroPadValue(d.year, 4);
    SplitAtSlashes(ZeroPad(d.day, 2), ZeroPad(d.month, 2), ZeroPad(d.year, 4));
  }

  lemma SplitAtSlashes(dd: string, mm: string, yyyy: string)
    requires |dd| == 2 && |mm| == 2 && |yyyy| == 4
    ensures var s := dd + "/" + mm + "/" + yyyy;
      |s| == 10 && s[2] == '/' && s[5] == '/' && s[..2] == dd && s[3..5] == mm && s[6..] == yyyy
  {
  }

  /** The first two lines: the title with the date, then a blank line. */
  function Header(today: Date): string
  {
    TITLE + DateText(today) + "\n\n"
  }

  /** The line for the collaborator numbered `index`: bold number, italic name. */
  function Line(index: nat, name: string): string
  {
    "*" + Digits(index) + "* - _" + name + "_\n"
  }

  /** The lines for `users`, numbered consecutively from `first`. */
  function Lines(users: seq<User>, first: nat): string
  {
    if users == [] then "" else Line(first, users[0].name) + Lines(users[1..], first + 1)
  }

  /** The records the report lists: those not away, in store order. */
  function Active(users: seq<User>): seq<User>
  {
    if users == [] then []
    else if users[0].afastado then Active(users[1..])
    else [users[0]] + Active(users[1..])
  }

  /** The filtered rows are exactly the rows that are not away, and no more of them. */
  lemma {:induction false} ActiveMembers(users: seq<User>)
    ensures |Active(users)| <= |users|
    ensures forall u :: u in Active(users) <==> u in users && !u.afastado
  {
    if users != [] {
      ActiveMembers(users[1..]);
      assert users == [users[0]] + users[1..];
    }
  }

  /** The whole clipboard text for the table `users` on the day `today`. */
  function Report(users: seq<User>, today: Date): string
  {
    Header(today) + Lines(Active(users), 1)
  }

  /** Appending a record adds the next numbered line at the end of the listing. */
  lemma {:induction false} LinesSnoc(users: seq<User>, u: User, first: nat)
    ensures Lines(users + [u], first) == Lines(users, first) + Line(first + |users|, u.name)
  {
    if users != [] {
      assert (users + [u])[1..] == users[1..] + [u];
      LinesSnoc(users[1..], u, first + 1);
    } else {
      assert users + [u] == [u];
    }
  }

  /** The listing of the first i + 1 rows is that of the first i rows and one more line. */
  lemma ListingStep(header: string, users: seq<User>, i: nat)
    requires i < |users|
    ensures header + Lines(users[..i + 1], 1) == header + Lines(users[..i], 1) + Line(i + 1, users[i].name)
  {
    assert users[..i + 1] == users[..i] + [users[i]];
    LinesSnoc(users[..i], users[i], 1);
  }

  lemma {:induction false} ActiveConcat(a: seq<User>, b: seq<User>)
    ensures Active(a + b) == Active(a) + Active(b)
  {
    if a != [] {
      assert (a + b)[1..] == a[1..] + b;
      ActiveConcat(a[1..], b);
    } else {
      assert a + b == b;
    }
  }

  /** Filtering twice is filtering once. */
  lemma {:induction false} ActiveIdempotent(users: seq<User>)
    ensures Active(Active(users)) == Active(users)
  {
    if users != [] {
      ActiveIdempotent(users[1..]);
      if !users[0].afastado {
        assert Active(users) == [users[0]] + Active(users[1..]);
        assert ([users[0]] + Active(users[1..]))[1..] == Active(users[1..]);
      }
    }
  }

  /**
   * An active record added to the table adds exactly one line at the end
   * of the report, numbered after the lines already there (an away record
   * adds nothing: see ReportIgnoresAway).
   */
  lemma ReportAppend(users: seq<User>, u: User, today: Date)
    requires !u.afastado
    ensures Report(users + [u], today) == Report(users, today) + Line(|Active(users)| + 1, u.name)
  {
    var a := Active(users);
    ActiveSnoc(users, u);
    LinesSnoc(a, u, 1);
    AppendAssoc(Header(today), Lines(a, 1), Line(|a| + 1, u.name));
  }

  /** An active record appended to the table is appended to the filtered rows. */
  lemma ActiveSnoc(users: seq<User>, u: User)
    requires !u.afastado
    ensures Active(users + [u]) == Active(users) + [u]
  {
    ActiveConcat(users, [u]);
    assert [u][1..] == [];
  }

  lemma AppendAssoc<T>(a: seq<T>, b: seq<T>, c: seq<T>)
    ensures a + (b + c) == (a + b) + c
  {
  }

  /** Away records never contribute: the report of the table is that of its active part. */
  lemma ReportOnlyActive(users: seq<User>, today: Date)
    ensures Report(users, today) == Report(Active(users), today)
  {
    ActiveIdempotent(users);
  }

  /** An away record anywhere in the table leaves the report unchanged. */
  lemma ReportIgnoresAway(before: seq<User>, a: User, after: seq<User>, today: Date)
    requires a.afastado
    ensures Report(before + [a] + after, today) == Report(before + after, today)
  {
    ActiveConcat(before + [a], after);
    ActiveConcat(before, [a]);
    ActiveConcat(before, after);
    assert Active([a]) == [];
    assert Active(before) + [] == Active(before);
  }

  lemma DateTextExample()
    ensures DateText(Date(10, 5, 2024)) == "10/05/2024"
  {
    DigitsExample();
    assert ZeroPad(10, 2) == Zeros(0) + "10" == "10";
    assert ZeroPad(5, 2) == Zeros(1) + "5" == "05";
    assert ZeroPad(2024, 4) == Zeros(0) + "2024" == "2024";
  }

  lemma DigitsExample()
    ensures Digits(10) == "10" && Digits(5) == "5" && Digits(2024) == "2024"
  {
    assert Digits(1) == "1" && Digits(0) == "0";
    assert Digits(2) == "2" && Digits(4) == "4" && Digits(5) == "5";
    assert Digits(10) == Digits(1) + [DigitChar(0)];
    assert Digits(20) == Digits(2) + [DigitChar(0)];
    assert Digits(202) == Digits(20) + [DigitChar(2)];
    assert Digits(2024) == Digits(202) + [DigitChar(4)];
  }

  lemma ExampleTextSplit()
    ensures TITLE + "10/05/2024" + "\n\n" + "*1* - _Ana_\n*2* - _Bea_\n" ==
      "*DISPENSA ATUALIZADA* 10/05/2024\n\n*1* - _Ana_\n*2* - _Bea_\n"
  {
    HeaderTextExample();
    assert "*DISPENSA ATUALIZADA* 10/05/2024\n\n" + "*1* - _Ana_\n*2* - _Bea_\n" ==
      "*DISPENSA ATUALIZADA* 10/05/2024\n\n*1* - _Ana_\n*2* - _Bea_\n";
  }

  lemma HeaderTextExample()
    ensures TITLE + "10/05/2024" + "\n\n" == "*DISPENSA ATUALIZADA* 10/05/2024\n\n"
  {
    assert TITLE + "10/05/2024" == "*DISPENSA ATUALIZADA* 10/05/2024";
  }

  lemma LinesExample(ana: User, bea: User)
    requires ana.name == "Ana" && bea.name == "Bea"
    ensures Lines([ana, bea], 1) == "*1* - _Ana_\n*2* - _Bea_\n"
  {
    assert [ana, bea][1..] == [bea];
    assert [bea][1..] == [];
    assert Digits(1) == "1" && Digits(2) == "2";
    assert Lines([bea], 2) == Line(2, "Bea") + Lines([], 3);
    assert Lines([ana, bea], 1) == Line(1, "Ana") + Lines([bea], 2);
    assert Line(1, "Ana") == "*1* - _Ana_\n";
    assert Line(2, "Bea") == "*2* - _Bea_\n";
  }

  /** Two active collaborators, Ana and Bea, on 10 May 2024. */
  lemma ReportExample(ana: User, bea: User)
    requires ana.name == "Ana" && !ana.afastado
    requires bea.name == "Bea" && !bea.afastado
    ensures Report([ana, bea], Date(10, 5, 2024)) ==
      "*DISPENSA ATUALIZADA* 10/05/2024\n\n*1* - _Ana_\n*2* - _Bea_\n"
  {
    DateTextExample();
    LinesExample(ana, bea);
    assert [ana, bea][1..] == [bea];
    assert [bea][1..] == [];
    assert Active([bea]) == [bea] + Active([]);
    assert Active([ana, bea]) == [ana, bea];
    ExampleTextSplit();
  }
}
