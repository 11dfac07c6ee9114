/** The keyboard side of the run menu (`run_menu.rs`): a search string that is
    opened with Windows+O, edited with Backspace and letters, a list of
    program entries filtered by that string, and a selection moved with the
    arrow keys and consumed by Enter. Reading the start-menu directory,
    spawning the program and drawing the menu are outside the model; the
    directory listing is a parameter and the program that would be spawned
    is returned. */
module RunMenu {
  import opened Wrappers
  import opened Strings
  import opened Input

  /** `ALPHABET`: the letter keys, scanned in this order every frame. */
  const ALPHABET: seq<Key> := [A, B, C, D, E, F, G, H, I, J, K, L, M, N, O, P, Q, R, S, T, U, V, W, X, Y, Z]

  /** Position of a letter key in the alphabet, -1 for the other keys. */
  function LetterOrd(k: Key): int
  {
    match k
    case A => 0 case B => 1 case C => 2 case D => 3 case E => 4 case F => 5 case G => 6
    case H => 7 case I => 8 case J => 9 case K => 10 case L => 11 case M => 12 case N => 13
    case O => 14 case P => 15 case Q => 16 case R => 17 case S => 18 case T => 19 case U => 20
    case V => 21 case W => 22 case X => 23 case Y => 24 case Z => 25
    case _ => -1
  }

  /** The alphabet lists the letter keys in alphabetical order. */
  lemma AlphabetOrder()
    ensures |ALPHABET| == 26
    ensures forall i :: 0 <= i < |ALPHABET| ==> LetterOrd(ALPHABET[i]) == i
  {
  }

  /** A key has a place in the alphabet exactly when it is a letter key. */
  lemma LetterOrdRange(k: Key)
    ensures IsLetter(k) <==> 0 <= LetterOrd(k) < 26
  {
  }

  /** The alphabet lists 26 letter keys. */
  lemma AlphabetLetters()
    ensures |ALPHABET| == 26
    ensures forall i :: 0 <= i < |ALPHABET| ==> IsLetter(ALPHABET[i])
  {
    AlphabetOrder();
    forall i | 0 <= i < |ALPHABET| ensures IsLetter(ALPHABET[i]) {
      LetterOrdRange(ALPHABET[i]);
    }
  }

  /** No letter key appears twice in the alphabet. */
  lemma AlphabetDistinct()
    ensures forall i, j :: 0 <= i < j < |ALPHABET| ==> ALPHABET[i] != ALPHABET[j]
  {
    AlphabetOrder();
    forall i, j | 0 <= i < j < |ALPHABET| ensures ALPHABET[i] != ALPHABET[j] {
      assert LetterOrd(ALPHABET[i]) != LetterOrd(ALPHABET[j]);
    }
  }

  /** A letter key types the lower-case letter at its place in the alphabet. */
  lemma LetterName(k: Key)
    requires IsLetter(k)
    ensures AsStr(k) == Some([('a' as int + LetterOrd(k)) as char])
  {
  }

  /** Each letter key types its own lower-case letter, in alphabetical order. */
  lemma AlphabetNames()
    ensures forall i :: 0 <= i < |ALPHABET| ==> AsStr(ALPHABET[i]) == Some([('a' as int + i) as char])
  {
    AlphabetLetters();
    AlphabetOrder();
    forall i | 0 <= i < |ALPHABET| ensures AsStr(ALPHABET[i]) == Some([('a' as int + i) as char]) {
      LetterName(ALPHABET[i]);
    }
  }

  /** One start-menu entry: its lower-cased name and the file it stands for
      (the `DirEntry` whose path is run). */
  datatype Entry = Entry(name: string, file: string)

  /** `sort_by_key` on the name: ascending, under `Ord for String`. */
  ghost predicate SortedByName(s: seq<Entry>)
  {
    forall i, j :: 0 <= i < j < |s| ==> LessEq(s[i].name, s[j].name)
  }

  /** Inserts `e` in front of the first entry it sorts before. */
  function Insert(e: Entry, s: seq<Entry>): (r: seq<Entry>)
    requires SortedByName(s)
    ensures SortedByName(r)
    ensures multiset(r) == multiset(s) + multiset{e}
    decreases |s|
  {
    if s == [] then
      [e]
    else if LessEq(e.name, s[0].name) then
      InsertFrontSorted(e, s);
      [e] + s
    else
      var rest := Insert(e, s[1..]);
      LessEqTotal(e.name, s[0].name);
      assert s == [s[0]] + s[1..];
      InsertConsSorted(s[0], e, s[1..], rest);
      [s[0]] + rest
  }

  lemma InsertFrontSorted(e: Entry, s: seq<Entry>)
    requires SortedByName(s) && s != [] && LessEq(e.name, s[0].name)
    ensures SortedByName([e] + s)
  {
    var r := [e] + s;
    forall i, j | 0 <= i < j < |r|
      ensures LessEq(r[i].name, r[j].name)
    {
      if i == 0 {
        if j > 1 {
          LessEqTransitive(e.name, s[0].name, s[j - 1].name);
        }
      }
    }
  }

  lemma InsertConsSorted(head: Entry, e: Entry, tail: seq<Entry>, rest: seq<Entry>)
    requires SortedByName([head] + tail) && SortedByName(rest)
    requires LessEq(head.name, e.name)
    requires multiset(rest) == multiset(tail) + multiset{e}
    ensures SortedByName([head] + rest)
  {
    var r := [head] + rest;
    forall i, j | 0 <= i < j < |r|
      ensures LessEq(r[i].name, r[j].name)
    {
      assert r[j] == rest[j - 1];
      if i == 0 {
        var x := rest[j - 1];
        assert x in multiset(rest);
        if x != e {
          assert x in multiset(tail);
          var k :| 0 <= k < |tail| && tail[k] == x;
          assert ([head] + tail)[0] == head && ([head] + tail)[k + 1] == x;
        }
      } else {
        assert r[i] == rest[i - 1];
      }
    }
  }

  /** The entries sorted by name: sorted, and a permutation of the input. */
  function SortByName(s: seq<Entry>): (r: seq<Entry>)
    ensures SortedByName(r)
    ensures multiset(r) == multiset(s)
    decreases |s|
  {
    if s == [] then []
    else
      assert s == [s[0]] + s[1..];
      Insert(s[0], SortByName(s[1..]))
  }

  /** The entries `RunMenu::new` collects from a directory listing: every
      entry that could be read, named by its lower-cased file name. A listing
      that could not be read at all gives no entries. */
  function Collected(listing: seq<Option<string>>): (r: seq<Entry>)
    ensures forall e :: e in r <==> exists n :: Some(n) in listing && e == Entry(Lower(n), n)
    ensures |r| <= |listing|
  {
    if listing == [] then []
    else
      var init := listing[..|listing| - 1];
      var last := listing[|listing| - 1];
      assert listing == init + [last];
      Collected(init) + (if last.Some? then [Entry(Lower(last.value), last.value)] else [])
  }

  /** The entries whose name contains `query`, in their original order. */
  function Filtered(s: seq<Entry>, query: string): (r: seq<Entry>)
    ensures forall e :: e in r <==> e in s && Contains(e.name, query)
    ensures |r| <= |s|
  {
    if s == [] then []
    else
      var init := s[..|s| - 1];
      assert s == init + [s[|s| - 1]];
      Filtered(init, query) + (if Contains(s[|s| - 1].name, query) then [s[|s| - 1]] else [])
  }

  /** Filtering keeps the sorted order of the entries. */
  lemma {:induction false} FilteredSorted(s: seq<Entry>, query: string)
    requires SortedByName(s)
    ensures SortedByName(Filtered(s, query))
    decreases |s|
  {
    if s != [] {
      var init := s[..|s| - 1];
      var last := s[|s| - 1];
      FilteredSorted(init, query);
      var f := Filtered(init, query);
      if Contains(last.name, query) {
        var r := f + [last];
        forall i, j | 0 <= i < j < |r|
          ensures LessEq(r[i].name, r[j].name)
        {
          if j == |f| {
            assert r[i] in init;
            var k :| 0 <= k < |init| && init[k] == r[i];
          }
        }
      }
    }
  }

  /** The empty search matches every entry. */
  lemma {:induction false} FilteredEmptyQuery(s: seq<Entry>)
    ensures Filtered(s, "") == s
    decreases |s|
  {
    if s != [] {
      FilteredEmptyQuery(s[..|s| - 1]);
      ContainsEmpty(s[|s| - 1].name);
      assert s == s[..|s| - 1] + [s[|s| - 1]];
    }
  }

  /** The filter loop of `draw`: every entry whose name contains the input,
      pushed in order. */
  method FilterEntries(s: seq<Entry>, query: string) returns (r: seq<Entry>)
    ensures r == Filtered(s, query)
  {
    r := [];
    for i := 0 to |s|
      invariant r == Filtered(s[..i], query)
    {
      assert s[..i + 1] == s[..i] + [s[i]];
      if Contains(s[i].name, query) {
        r := r + [s[i]];
      }
    }
    assert s[..|s|] == s;
  }

  /** The part of the menu's state the keyboard acts on. */
  datatype MenuState = MenuState(input: Option<string>, selected: Option<nat>)

  /** While the menu is open a selection indexes the filtered list, and a
      closed menu has no selection. This is what keeps the `unwrap` on the
      selected entry and `entries.len() - 1` from failing. */
  predicate MenuInv(entries: seq<Entry>, m: MenuState)
  {
    && (m.input.None? ==> m.selected.None?)
    && (m.input.Some? && m.selected.Some? ==> m.selected.value < |Filtered(entries, m.input.value)|)
  }

  /** A key's first read this frame reports a fresh press. */
  predicate JustPressed(keys: map<Key, InputState>, k: Key)
    requires Complete(keys)
  {
    keys[k].justChanged && keys[k].active
  }

  /** `String::pop`. */
  function DropLast(s: string): (r: string)
    ensures s == [] ==> r == []
    ensures s != [] ==> r + [s[|s| - 1]] == s
  {
    if s == [] then [] else s[..|s| - 1]
  }

  /** The character a letter key types. */
  function LetterChar(k: Key): (c: char)
    requires IsLetter(k)
    ensures 'a' <= c <= 'z' && AsStr(k) == Some([c])
  {
    assert AsStr(k).value == [AsStr(k).value[0]];
    AsStr(k).value[0]
  }

  /** Letter keys listed in strictly increasing order of the letters they type. */
  predicate LettersIncreasing(letters: seq<Key>)
    requires forall i :: 0 <= i < |letters| ==> IsLetter(letters[i])
  {
    forall i, j :: 0 <= i < j < |letters| ==> LetterChar(letters[i]) < LetterChar(letters[j])
  }

  /** A string whose characters strictly increase: each appears once, in order. */
  predicate Increasing(s: string)
  {
    forall i, j :: 0 <= i < j < |s| ==> s[i] < s[j]
  }

  /** Appending a character above every character of an increasing string
      keeps it increasing. */
  lemma AppendIncreasing(s: string, c: char)
    requires Increasing(s)
    requires forall d :: d in s ==> d < c
    ensures Increasing(s + [c])
  {
    var t := s + [c];
    forall i, j | 0 <= i < j < |t| ensures t[i] < t[j] {
      if j == |s| {
        assert t[i] == s[i] && s[i] in s;
      }
    }
  }

  /** The letters appended for the just-pressed keys among `letters`, in the
      order the keys are scanned. */
  function Typed(keys: map<Key, InputState>, letters: seq<Key>): (r: string)
    requires Complete(keys)
    requires forall i :: 0 <= i < |letters| ==> IsLetter(letters[i])
    ensures (r == "") <==> forall i :: 0 <= i < |letters| ==> !JustPressed(keys, letters[i])
    ensures forall i :: 0 <= i < |r| ==> 'a' <= r[i] <= 'z'
  {
    if letters == [] then ""
    else
      var init := letters[..|letters| - 1];
      var last := letters[|letters| - 1];
      assert forall i :: 0 <= i < |init| ==> init[i] == letters[i];
      Typed(keys, init) + (if JustPressed(keys, last) then AsStr(last).value else "")
  }

  /** A letter is typed exactly when some scanned key that types it was just
      pressed. */
  lemma {:induction false} TypedMembers(keys: map<Key, InputState>, letters: seq<Key>)
    requires Complete(keys)
    requires forall i :: 0 <= i < |letters| ==> IsLetter(letters[i])
    ensures forall c :: c in Typed(keys, letters) <==>
              exists i :: 0 <= i < |letters| && JustPressed(keys, letters[i]) && LetterChar(letters[i]) == c
  {
    if letters != [] {
      var init := letters[..|letters| - 1];
      var last := letters[|letters| - 1];
      TypedMembers(keys, init);
      assert forall i :: 0 <= i < |init| ==> init[i] == letters[i];
      forall c ensures c in Typed(keys, letters) ==>
          exists i :: 0 <= i < |letters| && JustPressed(keys, letters[i]) && LetterChar(letters[i]) == c
      {
        if c in Typed(keys, letters) && c !in Typed(keys, init) {
          assert JustPressed(keys, letters[|letters| - 1]) && LetterChar(letters[|letters| - 1]) == c;
        }
      }
    }
  }

  /** Keys scanned in alphabetical order type their letters in alphabetical
      order, each once. */
  lemma {:induction false} TypedIncreasing(keys: map<Key, InputState>, letters: seq<Key>)
    requires Complete(keys)
    requires forall i :: 0 <= i < |letters| ==> IsLetter(letters[i])
    requires LettersIncreasing(letters)
    ensures Increasing(Typed(keys, letters))
  {
    if letters != [] {
      var init := letters[..|letters| - 1];
      var last := letters[|letters| - 1];
      IncreasingInit(letters);
      TypedIncreasing(keys, init);
      if JustPressed(keys, last) {
        TypedBelow(keys, init, LetterChar(last));
        AppendIncreasing(Typed(keys, init), LetterChar(last));
      }
    }
  }

  /** Dropping the last key keeps the keys increasing, and every earlier key
      types a letter below the last one's. */
  lemma IncreasingInit(letters: seq<Key>)
    requires letters != []
    requires forall i :: 0 <= i < |letters| ==> IsLetter(letters[i])
    requires LettersIncreasing(letters)
    ensures LettersIncreasing(letters[..|letters| - 1])
    ensures forall i :: 0 <= i < |letters| - 1 ==> LetterChar(letters[i]) < LetterChar(letters[|letters| - 1])
  {
  }

  /** Keys that all type letters below `x` type only letters below `x`. */
  lemma TypedBelow(keys: map<Key, InputState>, letters: seq<Key>, x: char)
    requires Complete(keys)
    requires forall i :: 0 <= i < |letters| ==> IsLetter(letters[i])
    requires forall i :: 0 <= i < |letters| ==> LetterChar(letters[i]) < x
    ensures forall d :: d in Typed(keys, letters) ==> d < x
  {
    TypedMembers(keys, letters);
  }

  /** The alphabet's keys type 'a' to 'z' in order. */
  lemma AlphabetChars()
    ensures |ALPHABET| == 26
    ensures forall i :: 0 <= i < |ALPHABET| ==> IsLetter(ALPHABET[i])
    ensures forall i :: 0 <= i < |ALPHABET| ==> LetterChar(ALPHABET[i]) as int == 'a' as int + i
  {
    AlphabetLetters();
    AlphabetNames();
  }

  /** The letters typed this frame, over the whole alphabet. */
  function TypedAlphabet(keys: map<Key, InputState>): (r: string)
    requires Complete(keys)
    ensures r == "" <==> forall i :: 0 <= i < |ALPHABET| ==> !JustPressed(keys, ALPHABET[i])
  {
    AlphabetLetters();
    Typed(keys, ALPHABET)
  }

  /** A letter is typed this frame exactly when its key was just pressed,
      and the letters come out in alphabetical order, each once. */
  lemma TypedAlphabetLetters(keys: map<Key, InputState>)
    requires Complete(keys)
    ensures forall c :: c in TypedAlphabet(keys) <==> 'a' <= c <= 'z' && JustPressed(keys, ALPHABET[c as int - 'a' as int])
    ensures Increasing(TypedAlphabet(keys))
  {
    AlphabetChars();
    TypedInOrder(keys, ALPHABET);
  }

  /** `Typed` over 26 keys that type 'a' to 'z' in order. */
  lemma TypedInOrder(keys: map<Key, InputState>, letters: seq<Key>)
    requires Complete(keys) && |letters| == 26
    requires forall i :: 0 <= i < |letters| ==> IsLetter(letters[i])
    requires forall i :: 0 <= i < |letters| ==> LetterChar(letters[i]) as int == 'a' as int + i
    ensures forall c :: c in Typed(keys, letters) <==> 'a' <= c <= 'z' && JustPressed(keys, letters[c as int - 'a' as int])
    ensures Increasing(Typed(keys, letters))
  {
    SpelledIncreasing(letters);
    TypedIncreasing(keys, letters);
    TypedMembers(keys, letters);
    forall c ensures c in Typed(keys, letters) <==> 'a' <= c <= 'z' && JustPressed(keys, letters[c as int - 'a' as int]) {
      SpelledAt(keys, letters, c);
    }
  }

  /** Keys that type 'a' to 'z' in order type increasing letters. */
  lemma SpelledIncreasing(letters: seq<Key>)
    requires forall i :: 0 <= i < |letters| ==> IsLetter(letters[i])
    requires forall i :: 0 <= i < |letters| ==> LetterChar(letters[i]) as int == 'a' as int + i
    ensures LettersIncreasing(letters)
  {
  }

  /** Among keys that type 'a' to 'z' in order, the only one typing `c` is
      the one at `c - 'a'`. */
  lemma SpelledAt(keys: map<Key, InputState>, letters: seq<Key>, c: char)
    requires Complete(keys) && |letters| == 26
    requires forall i :: 0 <= i < |letters| ==> IsLetter(letters[i])
    requires forall i :: 0 <= i < |letters| ==> LetterChar(letters[i]) as int == 'a' as int + i
    ensures (exists i :: 0 <= i < |letters| && JustPressed(keys, letters[i]) && LetterChar(letters[i]) == c)
            <==> 'a' <= c <= 'z' && JustPressed(keys, letters[c as int - 'a' as int])
  {
    if 'a' <= c <= 'z' {
      var i := c as int - 'a' as int;
      assert LetterChar(letters[i]) == c;
    }
  }

  /** The search text after this frame's edits: Backspace pops the last
      character, then every just-pressed letter appends its lower-case letter
      in alphabetical order. */
  function EditedInput(text: string, keys: map<Key, InputState>): (r: string)
    requires Complete(keys)
    ensures !JustPressed(keys, Backspace) ==> text <= r
    ensures JustPressed(keys, Backspace) ==> DropLast(text) <= r
    ensures !JustPressed(keys, Backspace) ==> r[|text|..] == TypedAlphabet(keys)
    ensures JustPressed(keys, Backspace) ==> r[|DropLast(text)|..] == TypedAlphabet(keys)
  {
    (if JustPressed(keys, Backspace) then DropLast(text) else text) + TypedAlphabet(keys)
  }

  /** Whether `draw` counts the input as changed this frame. */
  predicate InputChanged(keys: map<Key, InputState>)
    requires Complete(keys)
  {
    JustPressed(keys, Backspace) || TypedAlphabet(keys) != ""
  }

  /** Without Backspace or a letter the search text stays as it was. */
  lemma UnchangedInput(text: string, keys: map<Key, InputState>)
    requires Complete(keys) && !InputChanged(keys)
    ensures EditedInput(text, keys) == text
  {
  }

  /** After an input change: a selection past the end of a list of `n`
      entries moves to the last one, or is cleared when the list is empty. */
  function ClampSelection(sel: Option<nat>, n: nat): (r: Option<nat>)
    ensures r.Some? ==> r.value < n
    ensures sel.None? || n == 0 <==> r.None?
    ensures sel.Some? && sel.value < n ==> r == sel
    ensures sel.Some? && n > 0 && sel.value >= n ==> r == Some(n - 1)
  {
    match sel
    case None => None
    case Some(selected) =>
      if selected >= n then
        if n != 0 then Some(n - 1) else None
      else
        Some(selected)
  }

  /** ArrowUp: one entry up, staying on the first one. */
  function SelectUp(sel: Option<nat>): (r: Option<nat>)
    ensures sel.None? <==> r.None?
    ensures sel.Some? ==> r.value <= sel.value && (sel.value > 0 ==> r.value == sel.value - 1)
  {
    match sel
    case None => None
    case Some(selected) => if selected == 0 then Some(0) else Some(selected - 1)
  }

  /** ArrowDown: one entry down, staying on the last of `n` entries. */
  function SelectDown(sel: Option<nat>, n: nat): (r: Option<nat>)
    requires sel.Some? ==> sel.value < n
    ensures sel.None? <==> r.None?
    ensures sel.Some? ==> r.value < n && sel.value <= r.value
    ensures sel.Some? && sel.value + 1 < n ==> r.value == sel.value + 1
  {
    match sel
    case None => None
    case Some(selected) => if selected == n - 1 then Some(selected) else Some(selected + 1)
  }

  /** What one frame of `draw` does: the new state and the entry whose program
      is launched, if any. */
  datatype StepResult = StepResult(menu: MenuState, launched: Option<Entry>)

  /** The keyboard handling of `draw` as a function of the key states at the
      start of the frame. */
  function MenuStep(entries: seq<Entry>, m: MenuState, keys: map<Key, InputState>): (r: StepResult)
    requires Complete(keys) && MenuInv(entries, m)
    ensures MenuInv(entries, r.menu)
    // Windows+O (re)opens an empty search, on the first entry if there is one,
    // and nothing else happens that frame.
    ensures keys[Windows].active && keys[O].active ==>
              r.menu.input == Some("") && r.launched.None?
              && r.menu.selected == (if |entries| > 0 then Some(0) else None)
    // A closed menu ignores every other key.
    ensures !(keys[Windows].active && keys[O].active) && m.input.None? ==> r == StepResult(m, None)
    // Enter with a selection launches the selected filtered entry and closes the menu.
    ensures r.launched.Some? ==>
              && r.menu == MenuState(None, None) && keys[Enter].active && m.input.Some?
              && r.launched.value in entries
              && Contains(r.launched.value.name, EditedInput(m.input.value, keys))
    // Otherwise an open menu stays open with the edited text.
    ensures !(keys[Windows].active && keys[O].active) && m.input.Some? && r.launched.None? ==>
              r.menu.input == Some(EditedInput(m.input.value, keys))
  {
    if keys[Windows].active && keys[O].active then
      FilteredEmptyQuery(entries);
      StepResult(MenuState(Some(""), if |entries| > 0 then Some(0) else m.selected), None)
    else if m.input.None? then
      StepResult(m, None)
    else
      OpenStep(entries, m, keys)
  }

  /** The part of `draw` on an open menu: edit, filter, fix the selection up,
      then Enter and the arrows. */
  function OpenStep(entries: seq<Entry>, m: MenuState, keys: map<Key, InputState>): (r: StepResult)
    requires Complete(keys) && MenuInv(entries, m) && m.input.Some?
    ensures MenuInv(entries, r.menu)
    ensures r.launched.Some? ==>
              && r.menu == MenuState(None, None) && keys[Enter].active
              && r.launched.value in entries
              && Contains(r.launched.value.name, EditedInput(m.input.value, keys))
    ensures r.launched.None? ==> r.menu.input == Some(EditedInput(m.input.value, keys))
  {
    var (edited, filtered) := EditStep(entries, m, keys);
    NavigateStep(filtered, edited, keys)
  }

  /** The editing half of an open menu's step: the menu with the edited
      search text and the fixed-up selection, and the entries that text
      filters to, which the selection stays within. */
  function EditStep(entries: seq<Entry>, m: MenuState, keys: map<Key, InputState>): (r: (MenuState, seq<Entry>))
    requires Complete(keys) && MenuInv(entries, m) && m.input.Some?
    ensures r.0.input == Some(EditedInput(m.input.value, keys))
    ensures r.1 == Filtered(entries, EditedInput(m.input.value, keys))
    ensures r.0.selected.Some? ==> r.0.selected.value < |r.1|
    ensures r.0.selected.None? <==> m.selected.None? || (InputChanged(keys) && |r.1| == 0)
  {
    var text := EditedInput(m.input.value, keys);
    var filtered := Filtered(entries, text);
    var sel := if InputChanged(keys) then ClampSelection(m.selected, |filtered|)
               else (UnchangedInput(m.input.value, keys); m.selected);
    (MenuState(Some(text), sel), filtered)
  }

  /** The Enter and arrow handling of `draw` on an open menu, over the
      filtered entries: Enter with a selection launches that entry and closes
      the menu; otherwise ArrowUp, then ArrowDown, move the selection. */
  function NavigateStep(filtered: seq<Entry>, m: MenuState, keys: map<Key, InputState>): (r: StepResult)
    requires Complete(keys) && m.input.Some? && (m.selected.Some? ==> m.selected.value < |filtered|)
    ensures r.launched.Some? <==> keys[Enter].active && m.selected.Some?
    ensures r.launched.Some? ==> r.menu == MenuState(None, None) && r.launched.value == filtered[m.selected.value]
    ensures r.launched.None? ==>
              && r.menu.input == m.input
              && (r.menu.selected.None? <==> m.selected.None?)
              && (r.menu.selected.Some? ==> r.menu.selected.value < |filtered|)
  {
    if keys[Enter].active && m.selected.Some? then
      StepResult(MenuState(None, None), Some(filtered[m.selected.value]))
    else
      var up := if JustPressed(keys, ArrowUp) then SelectUp(m.selected) else m.selected;
      var down := if JustPressed(keys, ArrowDown) then SelectDown(up, |filtered|) else up;
      StepResult(MenuState(m.input, down), None)
  }

  /** Enter without a selection does nothing by itself: with no arrow pressed
      the menu only takes the edit. */
  lemma EnterWithoutSelection(entries: seq<Entry>, m: MenuState, keys: map<Key, InputState>)
    requires Complete(keys) && MenuInv(entries, m)
    requires !(keys[Windows].active && keys[O].active) && m.input.Some? && m.selected.None?
    ensures MenuStep(entries, m, keys).launched.None?
    ensures MenuStep(entries, m, keys).menu == MenuState(Some(EditedInput(m.input.value, keys)), None)
  {
  }

  /** The key map after a frame's reads: flags are only ever cleared. */
  ghost predicate OnlyRead(before: map<Key, InputState>, after: map<Key, InputState>)
    requires Complete(before) && Complete(after)
  {
    forall k :: after[k].active == before[k].active && (after[k].justChanged ==> before[k].justChanged)
  }

  /** No key but Windows and O differs between the two tables. */
  ghost predicate ChordOnly(before: map<Key, InputState>, after: map<Key, InputState>)
    requires Complete(before) && Complete(after)
  {
    forall k :: k != Windows && k != O ==> after[k] == before[k]
  }

  /** `RunMenu`, without its pose, text styles and selection marker. */
  class RunMenu {
    var input: Option<string>
    const entries: seq<Entry>
    var selectedOption: Option<nat>

    ghost predicate Valid()
      reads this
    {
      SortedByName(entries) && MenuInv(entries, MenuState(input, selectedOption))
    }

    /** `RunMenu::new`, given the start-menu listing (`None` when the
        directory cannot be read, a `None` entry for an unreadable item). */
    constructor (listing: Option<seq<Option<string>>>)
      ensures Valid()
      ensures input.None? && selectedOption.None?
      ensures multiset(entries) == multiset(if listing.Some? then Collected(listing.value) else [])
    {
      var collected: seq<Entry> := [];
      if listing.Some? {
        var l := listing.value;
        for i := 0 to |l|
          invariant collected == Collected(l[..i])
        {
          assert l[..i + 1] == l[..i] + [l[i]];
          if l[i].Some? {
            collected := collected + [Entry(Lower(l[i].value), l[i].value)];
          }
        }
        assert l[..|l|] == l;
      }
      entries := SortByName(collected);
      input := None;
      selectedOption := None;
    }

    /** The keyboard handling of `RunMenu::draw`. Each key is read through
        `get_input`, which clears its change flag; the outcome is nevertheless
        exactly `MenuStep` of the key states before the call, because no key
        whose change flag matters is read twice before it is used. */
    method Draw(kb: KeyboardMouseState) returns (launched: Option<Entry>)
      requires Valid() && kb.Valid()
      modifies this, kb
      ensures Valid() && kb.Valid()
      ensures StepResult(MenuState(input, selectedOption), launched)
              == MenuStep(entries, MenuState(old(input), old(selectedOption)), old(kb.keys))
      ensures OnlyRead(old(kb.keys), kb.keys)
      ensures old(input).None? ==> ChordOnly(old(kb.keys), kb.keys)
    {
      ghost var keys0 := kb.keys;
      var open := ReadOpenChord(kb);
      if open {
        FilteredEmptyQuery(entries);
        input := Some("");
        if |entries| > 0 {
          selectedOption := Some(0);
        }
        return None;
      }
      if input.None? {
        return None;
      }
      ghost var keys1 := kb.keys;
      ghost var m1 := MenuState(input, selectedOption);
      launched := DrawOpen(kb);
      OpenStepSame(entries, m1, keys1, keys0);
      OnlyReadTransitive(keys0, keys1, kb.keys);
    }

    /** `draw` on an open menu, once Windows+O has been ruled out. */
    method DrawOpen(kb: KeyboardMouseState) returns (launched: Option<Entry>)
      requires Valid() && kb.Valid() && input.Some?
      modifies this, kb
      ensures Valid() && kb.Valid()
      ensures StepResult(MenuState(input, selectedOption), launched)
              == OpenStep(entries, MenuState(old(input), old(selectedOption)), old(kb.keys))
      ensures OnlyRead(old(kb.keys), kb.keys)
    {
      ghost var keys0 := kb.keys;
      var entries := Edit(kb);
      ghost var keys1 := kb.keys;
      ghost var m1 := MenuState(input, selectedOption);
      launched := Navigate(kb, entries);
      NavigateSame(entries, m1, keys1, keys0);
      OnlyReadTransitive(keys0, keys1, kb.keys);
    }

    /** Backspace, the letters, the filter and the selection fix-up of `draw`
        on an open menu; returns the filtered entries. Keys other than
        Backspace and the letters are left unread. */
    method Edit(kb: KeyboardMouseState) returns (filtered: seq<Entry>)
      requires Valid() && kb.Valid() && input.Some?
      modifies this, kb
      ensures kb.Valid() && OnlyRead(old(kb.keys), kb.keys)
      ensures (MenuState(input, selectedOption), filtered)
              == EditStep(entries, MenuState(old(input), old(selectedOption)), old(kb.keys))
      ensures forall k :: !IsLetter(k) && k != Backspace ==> kb.keys[k] == old(kb.keys)[k]
    {
      ghost var keys0 := kb.keys;
      var text, inputChanged := ReadEdits(kb, input.value);
      input := Some(text);
      filtered := FilterEntries(this.entries, text);
      if !inputChanged {
        UnchangedInput(old(input).value, keys0);
      }
      Reselect(inputChanged, |filtered|);
    }

    /** The selection fix-up after an edit: a selection past the end of the
        `n` filtered entries moves to the last one, or is dropped. */
    method Reselect(inputChanged: bool, n: nat)
      modifies this
      ensures input == old(input)
      ensures selectedOption == if inputChanged then ClampSelection(old(selectedOption), n) else old(selectedOption)
    {
      if inputChanged {
        if selectedOption.Some? {
          var selected := selectedOption.value;
          selectedOption := None;
          if selected >= n {
            if n != 0 {
              selectedOption := Some(n - 1);
            }
          } else {
            selectedOption := Some(selected);
          }
        }
      }
    }

    /** The Enter and arrow part of `draw` over the filtered entries. */
    method Navigate(kb: KeyboardMouseState, filtered: seq<Entry>) returns (launched: Option<Entry>)
      requires kb.Valid() && input.Some?
      requires selectedOption.Some? ==> selectedOption.value < |filtered|
      modifies this, kb
      ensures kb.Valid() && OnlyRead(old(kb.keys), kb.keys)
      ensures StepResult(MenuState(input, selectedOption), launched)
              == NavigateStep(filtered, MenuState(old(input), old(selectedOption)), old(kb.keys))
      ensures kb.keys == old(kb.keys)[Enter := InputState(old(kb.keys)[Enter].active, false)]
                                     [ArrowUp := InputState(old(kb.keys)[ArrowUp].active, false)]
                                     [ArrowDown := InputState(old(kb.keys)[ArrowDown].active, false)]
    {
      ghost var keys0 := kb.keys;
      launched := None;
      var enter := kb.GetInput(Enter);
      if enter.active {
        if selectedOption.Some? {
          var selected := selectedOption.value;
          selectedOption := None;
          launched := Some(filtered[selected]);
          input := None;
        }
      }
      MarkReadKeepsOnlyRead(keys0, keys0, Enter);
      ghost var keys1 := kb.keys;
      MoveUp(kb);
      MoveDown(kb, |filtered|);
      OnlyReadTransitive(keys0, keys1, kb.keys);
    }

    /** ArrowUp on the menu: the selection moves up when the arrow was just
        pressed; the arrow is marked as read. */
    method MoveUp(kb: KeyboardMouseState)
      requires kb.Valid()
      modifies this, kb
      ensures kb.Valid() && OnlyRead(old(kb.keys), kb.keys)
      ensures kb.keys == old(kb.keys)[ArrowUp := InputState(old(kb.keys)[ArrowUp].active, false)]
      ensures input == old(input)
      ensures selectedOption == if JustPressed(old(kb.keys), ArrowUp) then SelectUp(old(selectedOption)) else old(selectedOption)
    {
      MarkReadKeepsOnlyRead(kb.keys, kb.keys, ArrowUp);
      var up := ReadPress(kb, ArrowUp);
      if up {
        if selectedOption.Some? {
          var selected := selectedOption.value;
          selectedOption := None;
          if selected == 0 {
            selectedOption := Some(0);
          } else {
            selectedOption := Some(selected - 1);
          }
        }
      }
    }

    /** ArrowDown on a menu of `n` filtered entries: the selection moves down
        when the arrow was just pressed; the arrow is marked as read. */
    method MoveDown(kb: KeyboardMouseState, n: nat)
      requires kb.Valid()
      requires selectedOption.Some? ==> selectedOption.value < n
      modifies this, kb
      ensures kb.Valid() && OnlyRead(old(kb.keys), kb.keys)
      ensures kb.keys == old(kb.keys)[ArrowDown := InputState(old(kb.keys)[ArrowDown].active, false)]
      ensures input == old(input)
      ensures selectedOption == if JustPressed(old(kb.keys), ArrowDown) then SelectDown(old(selectedOption), n) else old(selectedOption)
    {
      MarkReadKeepsOnlyRead(kb.keys, kb.keys, ArrowDown);
      var down := ReadPress(kb, ArrowDown);
      if down {
        if selectedOption.Some? {
          var selected := selectedOption.value;
          selectedOption := None;
          if selected == n - 1 {
            selectedOption := Some(selected);
          } else {
            selectedOption := Some(selected + 1);
          }
        }
      }
    }
  }

  /** Reading keys in two steps only reads them overall. */
  lemma OnlyReadTransitive(k1: map<Key, InputState>, k2: map<Key, InputState>, k3: map<Key, InputState>)
    requires Complete(k1) && Complete(k2) && Complete(k3)
    requires OnlyRead(k1, k2) && OnlyRead(k2, k3)
    ensures OnlyRead(k1, k3)
  {
  }

  /** The edit depends only on Backspace and the letters being just pressed. */
  lemma EditsSame(text: string, k1: map<Key, InputState>, k2: map<Key, InputState>)
    requires Complete(k1) && Complete(k2)
    requires JustPressed(k1, Backspace) == JustPressed(k2, Backspace)
    requires forall i :: 0 <= i < |ALPHABET| ==> JustPressed(k1, ALPHABET[i]) == JustPressed(k2, ALPHABET[i])
    ensures EditedInput(text, k1) == EditedInput(text, k2)
    ensures InputChanged(k1) == InputChanged(k2)
  {
    TypedAlphabetSame(k1, k2);
  }

  /** An open menu's step depends only on which keys other than Windows were
      just pressed, and on Enter being down. */
  lemma OpenStepSame(entries: seq<Entry>, m: MenuState, k1: map<Key, InputState>, k2: map<Key, InputState>)
    requires Complete(k1) && Complete(k2) && MenuInv(entries, m) && m.input.Some?
    requires k1[Enter].active == k2[Enter].active
    requires forall k :: k != Windows ==> JustPressed(k1, k) == JustPressed(k2, k)
    ensures OpenStep(entries, m, k1) == OpenStep(entries, m, k2)
  {
    AlphabetLetters();
    EditsSame(m.input.value, k1, k2);
    var text := EditedInput(m.input.value, k1);
    var filtered := Filtered(entries, text);
    var sel := if InputChanged(k1) then ClampSelection(m.selected, |filtered|) else m.selected;
    if !InputChanged(k1) {
      UnchangedInput(m.input.value, k1);
    }
    NavigateSame(filtered, MenuState(Some(text), sel), k1, k2);
  }

  /** Navigation depends only on Enter being down and the arrows being just
      pressed. */
  lemma NavigateSame(filtered: seq<Entry>, m: MenuState, k1: map<Key, InputState>, k2: map<Key, InputState>)
    requires Complete(k1) && Complete(k2) && m.input.Some? && (m.selected.Some? ==> m.selected.value < |filtered|)
    requires k1[Enter].active == k2[Enter].active
    requires JustPressed(k1, ArrowUp) == JustPressed(k2, ArrowUp)
    requires JustPressed(k1, ArrowDown) == JustPressed(k2, ArrowDown)
    ensures NavigateStep(filtered, m, k1) == NavigateStep(filtered, m, k2)
  {
  }

  /** `TypedAlphabet` depends only on which letters were just pressed. */
  lemma TypedAlphabetSame(k1: map<Key, InputState>, k2: map<Key, InputState>)
    requires Complete(k1) && Complete(k2)
    requires forall i :: 0 <= i < |ALPHABET| ==> JustPressed(k1, ALPHABET[i]) == JustPressed(k2, ALPHABET[i])
    ensures TypedAlphabet(k1) == TypedAlphabet(k2)
  {
    AlphabetLetters();
    TypedSame(k1, k2, ALPHABET);
  }

  /** `Typed` depends only on which letters were just pressed. */
  lemma {:induction false} TypedSame(k1: map<Key, InputState>, k2: map<Key, InputState>, letters: seq<Key>)
    requires Complete(k1) && Complete(k2)
    requires forall i :: 0 <= i < |letters| ==> IsLetter(letters[i])
    requires forall i :: 0 <= i < |letters| ==> JustPressed(k1, letters[i]) == JustPressed(k2, letters[i])
    ensures Typed(k1, letters) == Typed(k2, letters)
  {
    if letters != [] {
      TypedSame(k1, k2, letters[..|letters| - 1]);
    }
  }

  /** Marking one key as read keeps a map's flags "only read" since `keys0`. */
  lemma MarkReadKeepsOnlyRead(keys0: map<Key, InputState>, keys: map<Key, InputState>, key: Key)
    requires Complete(keys0) && Complete(keys) && OnlyRead(keys0, keys)
    ensures Complete(keys[key := InputState(keys[key].active, false)])
    ensures OnlyRead(keys0, keys[key := InputState(keys[key].active, false)])
  {
  }

  /** The letters typed do not depend on the Backspace entry. */
  lemma TypedIgnoresBackspace(keys: map<Key, InputState>, s: InputState)
    requires Complete(keys)
    ensures Complete(keys[Backspace := s])
    ensures TypedAlphabet(keys[Backspace := s]) == TypedAlphabet(keys)
  {
    AlphabetLetters();
    TypedAlphabetSame(keys[Backspace := s], keys);
  }

  /** The Windows+O test of `draw`: Windows is read, and O only while
      Windows is down. When the chord is not down, no key's "just pressed"
      reading but Windows' changes and Enter is untouched. */
  method ReadOpenChord(kb: KeyboardMouseState) returns (open: bool)
    requires kb.Valid()
    modifies kb
    ensures kb.Valid() && OnlyRead(old(kb.keys), kb.keys)
    ensures open == (old(kb.keys)[Windows].active && old(kb.keys)[O].active)
    ensures !open ==> kb.keys[Enter] == old(kb.keys)[Enter]
    ensures !open ==> forall k :: k != Windows ==> JustPressed(kb.keys, k) == JustPressed(old(kb.keys), k)
    ensures ChordOnly(old(kb.keys), kb.keys)
  {
    ghost var keys0 := kb.keys;
    MarkReadKeepsOnlyRead(keys0, keys0, Windows);
    var windows := kb.GetInput(Windows);
    open := false;
    if windows.active {
      MarkReadKeepsOnlyRead(keys0, kb.keys, O);
      var o := kb.GetInput(O);
      open := o.active;
    }
  }

  /** The `get_input(key).just_changed && get_input(key).active` test `draw`
      uses for Backspace, the letters and the arrows: true when the key went
      down since it was last read, and the key is marked as read. */
  method ReadPress(kb: KeyboardMouseState, key: Key) returns (pressed: bool)
    requires kb.Valid()
    modifies kb
    ensures kb.Valid()
    ensures pressed == JustPressed(old(kb.keys), key)
    ensures kb.keys == old(kb.keys)[key := InputState(old(kb.keys)[key].active, false)]
  {
    var state := kb.GetInput(key);
    pressed := false;
    if state.justChanged {
      var stateAgain := kb.GetInput(key);
      pressed := stateAgain.active;
    }
  }

  /** Backspace and the letter loop of `draw` on an open menu. Returns the
      edited text and whether it changed. */
  method ReadEdits(kb: KeyboardMouseState, text0: string) returns (text: string, inputChanged: bool)
    requires kb.Valid()
    modifies kb
    ensures kb.Valid() && OnlyRead(old(kb.keys), kb.keys)
    ensures text == EditedInput(text0, old(kb.keys))
    ensures inputChanged == InputChanged(old(kb.keys))
    ensures forall k :: !IsLetter(k) && k != Backspace ==> kb.keys[k] == old(kb.keys)[k]
  {
    ghost var keys0 := kb.keys;
    MarkReadKeepsOnlyRead(keys0, keys0, Backspace);
    var backspace := ReadPress(kb, Backspace);
    text := text0;
    if backspace {
      text := DropLast(text);
    }
    ghost var keys1 := kb.keys;
    var typed := ReadLetters(kb);
    TypedIgnoresBackspace(keys0, InputState(keys0[Backspace].active, false));
    OnlyReadTransitive(keys0, keys1, kb.keys);
    text := text + typed;
    inputChanged := backspace || typed != "";
  }

  /** The letter loop of `draw`: reads every letter key in alphabetical order
      and returns the lower-case letters of those just pressed. */
  method ReadLetters(kb: KeyboardMouseState) returns (typed: string)
    requires kb.Valid()
    modifies kb
    ensures kb.Valid() && OnlyRead(old(kb.keys), kb.keys)
    ensures typed == TypedAlphabet(old(kb.keys))
    ensures forall k :: !IsLetter(k) ==> kb.keys[k] == old(kb.keys)[k]
  {
    AlphabetLetters();
    AlphabetDistinct();
    typed := ReadKeys(kb, ALPHABET);
  }

  /** That loop over any list of distinct letter keys, scanned in order. */
  method ReadKeys(kb: KeyboardMouseState, letters: seq<Key>) returns (typed: string)
    requires kb.Valid()
    requires forall i :: 0 <= i < |letters| ==> IsLetter(letters[i])
    requires forall i, j :: 0 <= i < j < |letters| ==> letters[i] != letters[j]
    modifies kb
    ensures kb.Valid() && OnlyRead(old(kb.keys), kb.keys)
    ensures typed == Typed(old(kb.keys), letters)
    ensures forall k :: k !in letters ==> kb.keys[k] == old(kb.keys)[k]
  {
    ghost var keys0 := kb.keys;
    typed := "";
    for i := 0 to |letters|
      invariant kb.Valid() && OnlyRead(keys0, kb.keys)
      invariant forall k :: k !in letters[..i] ==> kb.keys[k] == keys0[k]
      invariant typed == Typed(keys0, letters[..i])
    {
      var key := letters[i];
      assert key !in letters[..i];
      MarkReadKeepsOnlyRead(keys0, kb.keys, key);
      var pressed := ReadPress(kb, key);
      TypedSnoc(keys0, letters[..i], key);
      PrefixSnoc(letters, i);
      if pressed {
        typed := typed + AsStr(key).value;
      }
    }
    assert letters[..|letters|] == letters;
  }

  /** A prefix one longer is the prefix and the next element. */
  lemma PrefixSnoc(s: seq<Key>, i: nat)
    requires i < |s|
    ensures s[..i + 1] == s[..i] + [s[i]]
  {
  }

  /** `Typed` over one more letter appends that letter's contribution. */
  lemma TypedSnoc(keys: map<Key, InputState>, letters: seq<Key>, key: Key)
    requires Complete(keys) && IsLetter(key)
    requires forall i :: 0 <= i < |letters| ==> IsLetter(letters[i])
    ensures Typed(keys, letters + [key])
            == Typed(keys, letters) + (if JustPressed(keys, key) then AsStr(key).value else "")
  {
    assert (letters + [key])[..|letters|] == letters;
  }
}
