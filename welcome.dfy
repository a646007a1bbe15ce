/** The welcome screen: the player types a name, which is kept with a
    capital first letter and lower-case rest, at most ten letters long. */
module Welcome {

  /** isalpha in the C locale. */
  predicate IsAlpha(c: char) {
    ('A' <= c <= 'Z') || ('a' <= c <= 'z')
  }

  predicate IsUpper(c: char) {
    'A' <= c <= 'Z'
  }

  predicate IsLower(c: char) {
    'a' <= c <= 'z'
  }

  /** toupper in the C locale: only lower-case letters change. */
  function ToUpper(c: char): (u: char)
    ensures IsAlpha(c) ==> IsUpper(u)
    ensures IsLower(c) ==> u as int == c as int - 32
    ensures !IsLower(c) ==> u == c
  {
    if IsLower(c) then (c as int - 32) as char else c
  }

  /** tolower in the C locale: only upper-case letters change. */
  function ToLower(c: char): (l: char)
    ensures IsAlpha(c) ==> IsLower(l)
    ensures IsUpper(c) ==> l as int == c as int + 32
    ensures !IsUpper(c) ==> l == c
  {
    if IsUpper(c) then (c as int + 32) as char else c
  }

  /** The longest name the welcome screen accepts. */
  const MaxName := 10

  /** A name as the welcome screen keeps it: letters only, at most ten, the
      first upper case and the rest lower case. */
  predicate WellFormedName(name: string) {
    && |name| <= MaxName
    && (forall i :: 0 <= i < |name| ==> IsAlpha(name[i]))
    && (|name| > 0 ==> IsUpper(name[0]))
    && (forall i :: 1 <= i < |name| ==> IsLower(name[i]))
  }

  /** The case rule on its own: upper-case first letter, lower-case rest. */
  function Capitalized(s: string): (t: string)
    ensures |t| == |s|
    ensures |s| > 0 ==> t[0] == ToUpper(s[0])
    ensures forall i :: 1 <= i < |s| ==> t[i] == ToLower(s[i])
  {
    if s == [] then [] else [ToUpper(s[0])] + LowerAll(s[1..])
  }

  /** Every character through tolower. */
  function LowerAll(s: string): (t: string)
    ensures |t| == |s| && forall i :: 0 <= i < |s| ==> t[i] == ToLower(s[i])
  {
    if s == [] then [] else [ToLower(s[0])] + LowerAll(s[1..])
  }

  /** Applying the case rule a second time changes nothing. */
  lemma CapitalizedIdempotent(s: string)
    ensures Capitalized(Capitalized(s)) == Capitalized(s)
  {
    var t := Capitalized(s);
    var u := Capitalized(t);
    assert |u| == |t|;
    forall i | 0 <= i < |t|
      ensures u[i] == t[i]
    {
      if i == 0 {
        assert ToUpper(ToUpper(s[0])) == ToUpper(s[0]);
      } else {
        assert ToLower(ToLower(s[i])) == ToLower(s[i]);
      }
    }
  }

  /** A letter string of at most ten characters becomes a well-formed name
      under the case rule, and a well-formed name is its own case-ruled form. */
  lemma CapitalizedWellFormed(s: string)
    requires |s| <= MaxName && forall i :: 0 <= i < |s| ==> IsAlpha(s[i])
    ensures WellFormedName(Capitalized(s))
    ensures WellFormedName(s) ==> Capitalized(s) == s
  {
    var t := Capitalized(s);
    forall i | 0 <= i < |s|
      ensures IsAlpha(t[i])
    {
      if i == 0 {
        assert IsUpper(ToUpper(s[0]));
      } else {
        assert IsLower(ToLower(s[i]));
      }
    }
  }

  /** The events the welcome screen reacts to; `KeyEnter` is the Enter key. */
  datatype WelcomeEvent = WindowClosed | TextEntered(ch: char) | KeyEnter | OtherInput

  /** The backspace character. */
  const Backspace: char := 8 as char

  class WelcomeWindow {
    var playerName: string
    var shouldLaunchGame: bool
    var windowOpen: bool

    ghost predicate Valid()
      reads this
    {
      WellFormedName(playerName)
    }

    constructor ()
      ensures Valid() && playerName == [] && !shouldLaunchGame && windowOpen
    {
      playerName, shouldLaunchGame, windowOpen := [], false, true;
    }

    /** handleInput of the welcome screen. */
    method HandleInput(ev: WelcomeEvent)
      requires Valid()
      modifies this
      ensures Valid()
      ensures ev.WindowClosed? ==> !shouldLaunchGame && !windowOpen && playerName == old(playerName)
      ensures ev.KeyEnter? ==>
                && shouldLaunchGame == (old(shouldLaunchGame) || old(playerName) != [])
                && windowOpen == (old(windowOpen) && old(playerName) == [])
                && playerName == old(playerName)
      ensures ev.TextEntered? ==>
                && shouldLaunchGame == old(shouldLaunchGame) && windowOpen == old(windowOpen)
                && playerName == NameAfter(old(playerName), ev.ch)
      ensures ev.OtherInput? ==> unchanged(this)
    {
      match ev {
        case WindowClosed =>
          shouldLaunchGame := false;
          windowOpen := false;
        case TextEntered(ch) =>
          EditName(ch);
        case KeyEnter =>
          if playerName != [] {
            shouldLaunchGame := true;
            windowOpen := false;
          }
        case OtherInput =>
      }
    }

    /** The name editing of handleInput: a letter is appended while the name
        is shorter than ten, then the case rule is applied; a backspace drops
        the last letter of a non-empty name; anything else is ignored. */
    method EditName(ch: char)
      requires Valid()
      modifies this`playerName
      ensures Valid() && playerName == NameAfter(old(playerName), ch)
    {
      if IsAlpha(ch) && |playerName| < MaxName {
        playerName := playerName + [ch];
        CapitalizedWellFormed(playerName);
        ApplyCase();
      } else if ch == Backspace && playerName != [] {
        playerName := playerName[..|playerName| - 1];
      }
    }

    /** The toupper on the first character and the tolower loop over the rest. */
    method ApplyCase()
      requires playerName != []
      modifies this`playerName
      ensures playerName == Capitalized(old(playerName))
    {
      ghost var s := playerName;
      playerName := playerName[0 := ToUpper(playerName[0])];
      var i := 1;
      while i < |playerName|
        invariant 1 <= i <= |playerName| == |s|
        invariant playerName[0] == ToUpper(s[0])
        invariant forall k :: 1 <= k < i ==> playerName[k] == ToLower(s[k])
        invariant forall k :: i <= k < |s| ==> playerName[k] == s[k]
      {
        playerName := playerName[i := ToLower(playerName[i])];
        i := i + 1;
      }
    }
  }

  /** The name after one typed character, as a value. */
  function NameAfter(name: string, ch: char): (r: string)
    requires WellFormedName(name)
    ensures WellFormedName(r)
  {
    if IsAlpha(ch) && |name| < MaxName then
      CapitalizedWellFormed(name + [ch]);
      Capitalized(name + [ch])
    else if ch == Backspace && name != [] then name[..|name| - 1]
    else name
  }

  /** Typing a letter into a name of fewer than ten letters appends exactly
      that letter, upper case when it is the first and lower case otherwise. */
  lemma TypeLetter(name: string, ch: char)
    requires WellFormedName(name) && IsAlpha(ch) && |name| < MaxName
    ensures NameAfter(name, ch) == name + [if name == [] then ToUpper(ch) else ToLower(ch)]
  {
    var s := name + [ch];
    var t := Capitalized(s);
    forall i | 0 <= i < |name|
      ensures t[i] == name[i]
    {
      if i == 0 {
        assert s[0] == name[0];
      } else {
        assert s[i] == name[i];
      }
    }
  }

  /** A full name, a non-letter or a backspace on an empty name leave the name as it is. */
  lemma IgnoredInput(name: string, ch: char)
    requires WellFormedName(name)
    requires (IsAlpha(ch) && |name| == MaxName) || (!IsAlpha(ch) && ch != Backspace) || (ch == Backspace && name == [])
    ensures NameAfter(name, ch) == name
  {
  }

  /** Typing a letter and then a backspace gives back the name. */
  lemma TypeThenErase(name: string, ch: char)
    requires WellFormedName(name) && IsAlpha(ch) && |name| < MaxName
    ensures NameAfter(NameAfter(name, ch), Backspace) == name
  {
    TypeLetter(name, ch);
  }
}
