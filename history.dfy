/**
 * The admin action-history page: who may see it, which entries it lists,
 * and how an action type is labelled, coloured and given an icon.
 */
module History {
  import opened Text
  import opened Query
  import opened Domain

  // ---- access --------------------------------------------------------------

  datatype Access = Render | Redirect(path: string)

  /** No session goes to the sign-in page; a signed-in non-admin goes to the dashboard. */
  function AdminGate(session: Option<Session>): (r: Access)
    ensures r == Redirect("/auth/signin") <==> session.None?
    ensures r == Redirect("/dashboard") <==> session.Some? && session.value.role != ADMIN
    ensures r == Render <==> session.Some? && session.value.role == ADMIN
  {
    if session.None? then Redirect("/auth/signin")
    else if session.value.role != ADMIN then Redirect("/dashboard")
    else Render
  }

  const HistoryLimit: nat := 100

  /** The entries listed: the newest `HistoryLimit`, newest first; every one of those is listed. */
  function RecentLogs(logs: seq<ActionLog>): (r: seq<ActionLog>)
    ensures |r| == if |logs| < HistoryLimit then |logs| else HistoryLimit
    ensures forall i :: 0 <= i < |r| ==> r[i] == logs[|logs| - 1 - i]
    ensures forall j :: 0 <= j < |logs| && j >= |logs| - HistoryLimit ==> logs[j] in r
  {
    var r := Take(Reverse(logs), HistoryLimit);
    assert forall j :: 0 <= j < |logs| && j >= |logs| - HistoryLimit ==> r[|logs| - 1 - j] == logs[j];
    r
  }

  datatype HistoryView = Redirected(path: string) | Listing(entries: seq<ActionLog>)

  function HistoryPage(session: Option<Session>, logs: seq<ActionLog>): (r: HistoryView)
    ensures r.Listing? <==> AdminGate(session) == Render
    ensures r.Listing? ==> r.entries == RecentLogs(logs)
    ensures r.Redirected? ==> AdminGate(session) == Redirect(r.path)
  {
    match AdminGate(session)
    case Redirect(path) => Redirected(path)
    case Render => Listing(RecentLogs(logs))
  }

  // ---- formatActionType ------------------------------------------------------

  /** `.replace(/_/g, ' ')` */
  function ReplaceUnderscores(s: string): (r: string)
    ensures |r| == |s|
    ensures forall i :: 0 <= i < |s| ==> r[i] == if s[i] == '_' then ' ' else s[i]
  {
    if s == [] then [] else [if s[0] == '_' then ' ' else s[0]] + ReplaceUnderscores(s[1..])
  }

  /** `.toLowerCase()` on ASCII. */
  function LowerAll(s: string): (r: string)
    ensures |r| == |s|
    ensures forall i :: 0 <= i < |s| ==> r[i] == Lower(s[i])
  {
    if s == [] then [] else [Lower(s[0])] + LowerAll(s[1..])
  }

  /** `\b\w`: a word character at index `i` not preceded by a word character. */
  predicate WordStart(s: string, i: int)
    requires 0 <= i < |s|
  {
    IsWordChar(s[i]) && (i == 0 || !IsWordChar(s[i - 1]))
  }

  /** What the capitalizing pass makes of `c` when the character before it is a word character iff `afterWord`. */
  function CapChar(c: char, afterWord: bool): char {
    if IsWordChar(c) && !afterWord then Upper(c) else c
  }

  /** Whether the character before index `i` is a word character, `afterWord` standing for the one before `s`. */
  predicate AfterWord(s: string, i: int, afterWord: bool)
    requires 0 <= i < |s|
  {
    if i == 0 then afterWord else IsWordChar(s[i - 1])
  }

  /**
   * One left-to-right pass of `.replace(/\b\w/g, l => l.toUpperCase())`;
   * `afterWord` says whether the character before `s` was a word character.
   */
  function CapitalizeFrom(s: string, afterWord: bool): (r: string)
    ensures |r| == |s|
    ensures forall i :: 0 <= i < |s| ==> r[i] == CapChar(s[i], AfterWord(s, i, afterWord))
  {
    if s == [] then []
    else
      var rest := CapitalizeFrom(s[1..], IsWordChar(s[0]));
      var r := [CapChar(s[0], afterWord)] + rest;
      assert forall i :: 1 <= i < |s| ==> r[i] == rest[i - 1];
      assert forall i :: 1 <= i < |s| ==> AfterWord(s[1..], i - 1, IsWordChar(s[0])) == AfterWord(s, i, afterWord);
      r
  }

  function CapitalizeWords(s: string): (r: string)
    ensures |r| == |s|
    ensures forall i :: 0 <= i < |s| ==> r[i] == if WordStart(s, i) then Upper(s[i]) else s[i]
  {
    var r := CapitalizeFrom(s, false);
    assert forall i :: 0 <= i < |s| ==> (WordStart(s, i) <==> IsWordChar(s[i]) && !AfterWord(s, i, false));
    r
  }

  /** `formatActionType`: underscores to spaces, lower case, each word capitalized. */
  function FormatActionType(s: string): (r: string)
    ensures |r| == |s|
    ensures forall i :: 0 <= i < |r| ==> r[i] != '_'
    ensures forall i :: 0 <= i < |s| ==> (r[i] == ' ' <==> s[i] == '_' || s[i] == ' ')
  {
    CapitalizeWords(LowerAll(ReplaceUnderscores(s)))
  }

  /** A word as `formatActionType` renders it: first letter upper case, the rest lower case. */
  function Capitalized(w: string): (r: string)
    requires |w| >= 1
    ensures |r| == |w|
  {
    [Upper(Lower(w[0]))] + LowerAll(w[1..])
  }

  /** Position `j` of a capitalized word. */
  lemma CapitalizedAt(w: string, j: nat)
    requires 1 <= |w| && j < |w|
    ensures Capitalized(w)[j] == if j == 0 then Upper(Lower(w[0])) else Lower(w[j])
  {
    if j > 0 {
      assert w[1..][j - 1] == w[j];
    }
  }

  /** Position `i` of `formatActionType`'s output, in terms of the lower-cased text. */
  lemma FormatAt(s: string, i: nat)
    requires i < |s|
    ensures var l := LowerAll(ReplaceUnderscores(s));
      FormatActionType(s)[i] == if WordStart(l, i) then Upper(l[i]) else l[i]
  {
  }

  /** A letter of the action name comes out upper case at a word start and lower case elsewhere. */
  lemma FormatLetterAt(s: string, i: nat)
    requires i < |s| && IsLetter(s[i])
    ensures FormatActionType(s)[i] ==
      if i == 0 || !(IsLetter(s[i - 1]) || IsDigit(s[i - 1])) then Upper(Lower(s[i])) else Lower(s[i])
  {
    var l := LowerAll(ReplaceUnderscores(s));
    FormatAt(s, i);
    assert l[i] == Lower(s[i]);
    if i > 0 {
      assert l[i - 1] == Lower(if s[i - 1] == '_' then ' ' else s[i - 1]);
    }
  }

  lemma FormatTwoWordsAt(a: string, b: string, i: nat)
    requires |a| >= 1 && AllLetters(a) && |b| >= 1 && AllLetters(b) && i < |a| + 1 + |b|
    ensures FormatActionType(a + "_" + b)[i] ==
      if i < |a| then Capitalized(a)[i] else if i == |a| then ' ' else Capitalized(b)[i - |a| - 1]
  {
    var s := a + "_" + b;
    if i < |a| {
      assert s[i] == a[i];
      assert i > 0 ==> s[i - 1] == a[i - 1];
      FormatLetterAt(s, i);
      CapitalizedAt(a, i);
    } else if i == |a| {
      assert s[i] == '_';
    } else {
      var j := i - |a| - 1;
      assert s[i] == b[j];
      assert s[i - 1] == if j == 0 then '_' else b[j - 1];
      FormatLetterAt(s, i);
      CapitalizedAt(b, j);
    }
  }

  lemma JoinedAt(x: string, y: string, i: nat)
    requires i < |x| + 1 + |y|
    ensures (x + " " + y)[i] == if i < |x| then x[i] else if i == |x| then ' ' else y[i - |x| - 1]
  {
  }

  /** Two letter words joined by `_` come out as the two capitalized words joined by a space. */
  lemma FormatTwoWords(a: string, b: string)
    requires |a| >= 1 && AllLetters(a) && |b| >= 1 && AllLetters(b)
    ensures FormatActionType(a + "_" + b) == Capitalized(a) + " " + Capitalized(b)
  {
    forall i | 0 <= i < |a| + 1 + |b|
      ensures FormatActionType(a + "_" + b)[i] == (Capitalized(a) + " " + Capitalized(b))[i]
    {
      FormatTwoWordsAt(a, b, i);
      JoinedAt(Capitalized(a), Capitalized(b), i);
    }
  }

  // ---- getActionColor --------------------------------------------------------

  /** The badge colours; each stands for the class pair `bg-<colour>-100 text-<colour>-800`. */
  datatype Badge = Green | Blue | Red | Yellow | Gray

  predicate Removal(s: string) {
    Contains(s, "DELETED") || Contains(s, "BANNED") || Contains(s, "REMOVED")
  }

  /** `getActionColor`: the first of these tests that matches decides. */
  function ActionColor(s: string): (r: Badge)
    ensures r == Green <==> Contains(s, "CREATED")
    ensures r == Blue <==> !Contains(s, "CREATED") && Contains(s, "UPDATED")
    ensures r == Red <==> !Contains(s, "CREATED") && !Contains(s, "UPDATED") && Removal(s)
    ensures r == Yellow <==>
      !Contains(s, "CREATED") && !Contains(s, "UPDATED") && !Removal(s) && Contains(s, "CLOSED")
  {
    if Contains(s, "CREATED") then Green
    else if Contains(s, "UPDATED") then Blue
    else if Removal(s) then Red
    else if Contains(s, "CLOSED") then Yellow
    else Gray
  }

  /** The word of an action name that decides its colour, and where it starts. */
  function Verb(a: ActionType): (r: (string, nat))
    ensures r.1 <= |ActionName(a)| && StartsWith(ActionName(a)[r.1..], r.0)
  {
    match a
    case USER_CREATED => ("CREATED", 5)
    case USER_UPDATED => ("UPDATED", 5)
    case USER_REMOVED => ("REMOVED", 5)
    case USER_BANNED => ("BANNED", 5)
    case BOOK_CREATED => ("CREATED", 5)
    case BOOK_UPDATED => ("UPDATED", 5)
    case BOOK_CLOSED => ("CLOSED", 5)
    case TRANSACTION_CREATED => ("CREATED", 12)
    case TRANSACTION_UPDATED => ("UPDATED", 12)
    case TRANSACTION_DELETED => ("DELETED", 12)
  }

  /** A name containing one of the six colour words is not gray; one containing CREATED is green. */
  lemma ColouredByWord(s: string, word: string, k: nat)
    requires k <= |s| && StartsWith(s[k..], word)
    requires word in {"CREATED", "UPDATED", "DELETED", "BANNED", "REMOVED", "CLOSED"}
    ensures ActionColor(s) != Gray
    ensures word == "CREATED" ==> ActionColor(s) == Green
  {
    ContainsAt(s, word, k);
  }

  /** Every action the portal logs gets a colour; the creations get green. */
  lemma ActionsAreColoured(a: ActionType)
    ensures ActionColor(ActionName(a)) != Gray
    ensures Verb(a).0 == "CREATED" ==> ActionColor(ActionName(a)) == Green
  {
    var v := Verb(a);
    assert v.0 in {"CREATED", "UPDATED", "DELETED", "BANNED", "REMOVED", "CLOSED"};
    ColouredByWord(ActionName(a), v.0, v.1);
  }

  // ---- getActionIcon ---------------------------------------------------------

  datatype Icon = BookIcon | UserIcon | DollarIcon | HistoryIcon

  /** `getActionIcon`: by exact action-type name; any other text gets the history icon. */
  function ActionIcon(s: string): (r: Icon)
    ensures r == BookIcon <==> s in {"BOOK_CREATED", "BOOK_UPDATED", "BOOK_CLOSED"}
    ensures r == UserIcon <==> s in {"USER_CREATED", "USER_BANNED", "USER_REMOVED", "USER_UPDATED"}
    ensures r == DollarIcon <==> s in {"TRANSACTION_CREATED", "TRANSACTION_UPDATED", "TRANSACTION_DELETED"}
  {
    if s == "BOOK_CREATED" || s == "BOOK_UPDATED" || s == "BOOK_CLOSED" then BookIcon
    else if s == "USER_CREATED" || s == "USER_BANNED" || s == "USER_REMOVED" || s == "USER_UPDATED" then UserIcon
    else if s == "TRANSACTION_CREATED" || s == "TRANSACTION_UPDATED" || s == "TRANSACTION_DELETED" then DollarIcon
    else HistoryIcon
  }

  /** The kind of record an action type is about, read from its name. */
  function Subject(a: ActionType): (t: TargetType)
    ensures StartsWith(ActionName(a), TargetName(t) + "_")
  {
    match a
    case USER_CREATED | USER_UPDATED | USER_REMOVED | USER_BANNED => TargetType.USER
    case BOOK_CREATED | BOOK_UPDATED | BOOK_CLOSED => BOOK
    case TRANSACTION_CREATED | TRANSACTION_UPDATED | TRANSACTION_DELETED => TRANSACTION
  }

  /** Every action type gets the icon of its subject; none falls through to the history icon. */
  lemma IconFollowsSubject(a: ActionType)
    ensures ActionIcon(ActionName(a)) == match Subject(a)
      case BOOK => BookIcon
      case USER => UserIcon
      case TRANSACTION => DollarIcon
  {
    // The first letter of the name already tells the three groups apart.
    var s := ActionName(a);
    assert s[0] == match Subject(a) case BOOK => 'B' case USER => 'U' case TRANSACTION => 'T';
  }
}
