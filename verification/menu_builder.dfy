/** Keyboard construction and label resolution of `internal/bot/menu_builder.go`.
    A Telegram reply keyboard is a sequence of rows of buttons; sending a
    message becomes returning the (text, keyboard) pair. */
module MenuBuilding {
  import opened Wrappers
  import opened MenuTypes
  import opened Navigation
  import I18n
  import opened Slices

  /** A reply-keyboard button: a plain text button, or one that asks the
      client to share its location. */
  datatype KeyButton = TextButton(text: string) | LocationButton(text: string)

  type Row = seq<KeyButton>
  type Keyboard = seq<Row>

  const BackKey := "menu.back"
  const LocationKey := "menu.send_location"
  const WelcomeBackKey := "general.welcome_back"

  /** What a request knows about its user: the translation tables, the user's
      language (looked up in the database by the source), the user id, and the
      repository's admin lookup. */
  datatype Session = Session(
    translations: I18n.Translations,
    lang: string,
    userId: UserId,
    isAdmin: AdminLookup)

  /** The bot's `t` helper: the translation in the user's language. */
  function T(s: Session, key: string): string {
    I18n.Get(s.translations, s.lang, key)
  }

  // ---------------------------------------------------------------------
  // Permission filter

  /** A button is shown when it carries no role check or its check holds. */
  predicate Visible(b: MenuButton, s: Session) {
    b.requiresRole.None? || RoleHolds(b.requiresRole.value, s.isAdmin, s.userId)
  }

  /** The buttons that survive the permission filter, in their declared order. */
  function VisibleButtons(buttons: seq<MenuButton>, s: Session): (v: seq<MenuButton>)
    ensures |v| <= |buttons|
    ensures forall b :: b in v <==> b in buttons && Visible(b, s)
    decreases |buttons|
  {
    if |buttons| == 0 then []
    else
      var init := buttons[..|buttons| - 1];
      var last := buttons[|buttons| - 1];
      assert buttons == init + [last];
      if Visible(last, s) then VisibleButtons(init, s) + [last] else VisibleButtons(init, s)
  }

  /** Filtering distributes over concatenation, so the survivors keep their
      relative order. */
  lemma {:induction false} VisibleButtonsAppend(a: seq<MenuButton>, b: seq<MenuButton>, s: Session)
    ensures VisibleButtons(a + b, s) == VisibleButtons(a, s) + VisibleButtons(b, s)
    decreases |b|
  {
    if |b| == 0 {
      assert a + b == a;
    } else {
      var init := b[..|b| - 1];
      assert (a + b)[..|a + b| - 1] == a + init;
      assert (a + b)[|a + b| - 1] == b[|b| - 1];
      VisibleButtonsAppend(a, init, s);
    }
  }

  /** Buttons without a failing role check all stay. */
  lemma {:induction false} VisibleButtonsKeepsAll(buttons: seq<MenuButton>, s: Session)
    requires forall i :: 0 <= i < |buttons| ==> Visible(buttons[i], s)
    ensures VisibleButtons(buttons, s) == buttons
    decreases |buttons|
  {
    if |buttons| > 0 {
      var init := buttons[..|buttons| - 1];
      forall i | 0 <= i < |init|
        ensures Visible(init[i], s)
      {
        assert init[i] == buttons[i];
      }
      VisibleButtonsKeepsAll(init, s);
      InitLast(buttons);
    }
  }

  /** `filterVisibleButtons`. */
  method FilterVisibleButtons(buttons: seq<MenuButton>, s: Session) returns (visible: seq<MenuButton>)
    ensures visible == VisibleButtons(buttons, s)
  {
    visible := [];
    for i := 0 to |buttons|
      invariant visible == VisibleButtons(buttons[..i], s)
    {
      assert buttons[..i + 1][..i] == buttons[..i];
      var btn := buttons[i];
      if btn.requiresRole.Some? {
        var hasRole := RoleHolds(btn.requiresRole.value, s.isAdmin, s.userId);
        if !hasRole {
          continue;
        }
      }
      visible := visible + [btn];
    }
    assert buttons[..|buttons|] == buttons;
  }

  // ---------------------------------------------------------------------
  // Button labels

  /** The label of a button: its translation, preceded by the emoji and a
      space unless the translation already starts with the emoji. This is the
      text the resolver expects for the button. The keyboard shows
      `ButtonTextAsWritten` instead; the two agree on every declared button. */
  function ButtonText(tr: I18n.Translations, lang: string, b: MenuButton): string {
    var text := I18n.Get(tr, lang, b.textKey);
    if b.emoji != "" && !(b.emoji <= text) then b.emoji + " " + text else text
  }

  /** A label starts with the button's emoji exactly once: it is the
      translation itself when that already starts with the emoji (or there is
      no emoji), and otherwise the emoji, a space and the translation. */
  lemma {:induction false} ButtonTextShowsEmojiOnce(tr: I18n.Translations, lang: string, b: MenuButton)
    ensures b.emoji <= ButtonText(tr, lang, b)
    ensures b.emoji <= I18n.Get(tr, lang, b.textKey) ==> ButtonText(tr, lang, b) == I18n.Get(tr, lang, b.textKey)
    ensures !(b.emoji <= I18n.Get(tr, lang, b.textKey)) ==>
              ButtonText(tr, lang, b) == b.emoji + " " + I18n.Get(tr, lang, b.textKey)
  {
  }

  /** `buildButtonText` as the source writes it: the emoji is put in front
      whenever the button has one, even if the translation already starts with
      it. */
  function ButtonTextAsWritten(tr: I18n.Translations, lang: string, b: MenuButton): (shown: string)
    ensures b.emoji == "" ==> shown == ButtonText(tr, lang, b)
    ensures b.emoji != "" ==> shown == b.emoji + " " + I18n.Get(tr, lang, b.textKey)
  {
    var text := I18n.Get(tr, lang, b.textKey);
    if b.emoji != "" then b.emoji + " " + text else text
  }

  /** The two label functions agree on every button the registry declares,
      because none of them has an emoji. */
  lemma {:induction false} DeclaredLabelsAgree(tr: I18n.Translations, lang: string)
    ensures forall t, i :: t in DeclaredMenus() && 0 <= i < |DeclaredMenus()[t].buttons| ==>
              ButtonTextAsWritten(tr, lang, DeclaredMenus()[t].buttons[i]) ==
              ButtonText(tr, lang, DeclaredMenus()[t].buttons[i])
  {
    forall t, i | t in DeclaredMenus() && 0 <= i < |DeclaredMenus()[t].buttons|
      ensures DeclaredMenus()[t].buttons[i].emoji == ""
    {
      DeclaredMenuCases(t);
    }
  }

  /** A location button whose translation already carries its emoji. */
  function PinButton(): MenuButton {
    MenuButton("menu.pin", "pin", "📍", "", false, None, "")
  }

  function PinTranslations(): I18n.Translations {
    map[I18n.English := map["menu.pin" := "📍 Send location"]]
  }

  /** As written, such a button shows its emoji twice; the corrected label
      shows it once. */
  lemma {:induction false} AsWrittenRepeatsEmoji()
    ensures ButtonTextAsWritten(PinTranslations(), I18n.English, PinButton()) == "📍 📍 Send location"
    ensures ButtonText(PinTranslations(), I18n.English, PinButton()) == "📍 Send location"
  {
    var text := I18n.Get(PinTranslations(), I18n.English, "menu.pin");
    assert text == "📍 Send location";
    assert "📍" <= text;
  }

  // ---------------------------------------------------------------------
  // Rows

  /** A button rendered for the keyboard. Only buttons placed by the layout
      phase can become location buttons. */
  function RenderButton(tr: I18n.Translations, lang: string, b: MenuButton, layoutPhase: bool): (k: KeyButton)
    ensures k.text == ButtonTextAsWritten(tr, lang, b)
    ensures k.LocationButton? <==> layoutPhase && b.textKey == LocationKey
  {
    var shown := ButtonTextAsWritten(tr, lang, b);
    if layoutPhase && b.textKey == LocationKey then LocationButton(shown) else TextButton(shown)
  }

  function RenderRow(tr: I18n.Translations, lang: string, bs: seq<MenuButton>, layoutPhase: bool): (row: Row)
    ensures |row| == |bs|
    decreases |bs|
  {
    if |bs| == 0 then []
    else RenderRow(tr, lang, bs[..|bs| - 1], layoutPhase) + [RenderButton(tr, lang, bs[|bs| - 1], layoutPhase)]
  }

  lemma {:induction false} RenderRowSnoc(tr: I18n.Translations, lang: string, bs: seq<MenuButton>, b: MenuButton, layoutPhase: bool)
    ensures RenderRow(tr, lang, bs + [b], layoutPhase) == RenderRow(tr, lang, bs, layoutPhase) + [RenderButton(tr, lang, b, layoutPhase)]
  {
    assert (bs + [b])[..|bs|] == bs;
  }

  lemma {:induction false} RenderRowAt(tr: I18n.Translations, lang: string, bs: seq<MenuButton>, layoutPhase: bool)
    ensures forall i :: 0 <= i < |bs| ==> RenderRow(tr, lang, bs, layoutPhase)[i] == RenderButton(tr, lang, bs[i], layoutPhase)
    decreases |bs|
  {
    if |bs| > 0 {
      RenderRowAt(tr, lang, bs[..|bs| - 1], layoutPhase);
    }
  }

  /** The labels of the given buttons, in order. */
  function Texts(tr: I18n.Translations, lang: string, bs: seq<MenuButton>): (texts: seq<string>)
    ensures |texts| == |bs|
    decreases |bs|
  {
    if |bs| == 0 then [] else Texts(tr, lang, bs[..|bs| - 1]) + [ButtonTextAsWritten(tr, lang, bs[|bs| - 1])]
  }

  lemma {:induction false} TextsAppend(tr: I18n.Translations, lang: string, a: seq<MenuButton>, b: seq<MenuButton>)
    ensures Texts(tr, lang, a + b) == Texts(tr, lang, a) + Texts(tr, lang, b)
    decreases |b|
  {
    if |b| == 0 {
      assert a + b == a;
    } else {
      assert (a + b)[..|a + b| - 1] == a + b[..|b| - 1];
      TextsAppend(tr, lang, a, b[..|b| - 1]);
    }
  }

  /** The labels shown on a row of keyboard buttons. */
  function Labels(row: Row): (labels: seq<string>)
    ensures |labels| == |row|
    decreases |row|
  {
    if |row| == 0 then [] else Labels(row[..|row| - 1]) + [row[|row| - 1].text]
  }

  lemma {:induction false} LabelsAppend(a: Row, b: Row)
    ensures Labels(a + b) == Labels(a) + Labels(b)
    decreases |b|
  {
    if |b| == 0 {
      assert a + b == a;
    } else {
      assert (a + b)[..|a + b| - 1] == a + b[..|b| - 1];
      LabelsAppend(a, b[..|b| - 1]);
    }
  }

  lemma {:induction false} RenderRowLabels(tr: I18n.Translations, lang: string, bs: seq<MenuButton>, layoutPhase: bool)
    ensures Labels(RenderRow(tr, lang, bs, layoutPhase)) == Texts(tr, lang, bs)
    decreases |bs|
  {
    if |bs| > 0 {
      RenderRowLabels(tr, lang, bs[..|bs| - 1], layoutPhase);
      var row := RenderRow(tr, lang, bs, layoutPhase);
      assert row[..|row| - 1] == RenderRow(tr, lang, bs[..|bs| - 1], layoutPhase);
    }
  }

  /** All buttons of a keyboard, row after row. */
  function Flatten(rows: Keyboard): Row
    decreases |rows|
  {
    if |rows| == 0 then [] else Flatten(rows[..|rows| - 1]) + rows[|rows| - 1]
  }

  lemma {:induction false} FlattenAppend(a: Keyboard, b: Keyboard)
    ensures Flatten(a + b) == Flatten(a) + Flatten(b)
    decreases |b|
  {
    if |b| == 0 {
      assert a + b == a;
    } else {
      var init := b[..|b| - 1];
      var last := b[|b| - 1];
      assert (a + b)[..|a + b| - 1] == a + init;
      FlattenAppend(a, init);
      calc {
        Flatten(a + b);
        Flatten(a + init) + last;
        (Flatten(a) + Flatten(init)) + last;
        Flatten(a) + (Flatten(init) + last);
        Flatten(a) + Flatten(b);
      }
    }
  }

  // ---------------------------------------------------------------------
  // Layout

  /** How many of `available` buttons a row of size `rowSize` takes: the
      source's inner loop stops at the row size or at the last button. */
  function RowTake(rowSize: nat, available: nat): (n: nat)
    ensures n <= available
  {
    if rowSize < available then rowSize else available
  }

  /** The rows placed by the layout phase of `buildRows`: each layout entry
      takes the next buttons, a row that took none is not emitted, and the
      phase ends when the buttons run out. */
  function LayoutRows(tr: I18n.Translations, lang: string, bs: seq<MenuButton>, layout: seq<nat>): Keyboard
    decreases |layout|
  {
    if |layout| == 0 || |bs| == 0 then []
    else
      var n := RowTake(layout[0], |bs|);
      (if n > 0 then [RenderRow(tr, lang, bs[..n], true)] else []) + LayoutRows(tr, lang, bs[n..], layout[1..])
  }

  /** The number of buttons the layout phase places. */
  function Consumed(available: nat, layout: seq<nat>): (c: nat)
    ensures c <= available
    decreases |layout|
  {
    if |layout| == 0 || available == 0 then 0
    else
      var n := RowTake(layout[0], available);
      n + Consumed(available - n, layout[1..])
  }

  /** The buttons the layout did not place, one text button per row. */
  function OverflowRows(tr: I18n.Translations, lang: string, bs: seq<MenuButton>): (rows: Keyboard)
    ensures |rows| == |bs|
    decreases |bs|
  {
    if |bs| == 0 then []
    else OverflowRows(tr, lang, bs[..|bs| - 1]) + [[RenderButton(tr, lang, bs[|bs| - 1], false)]]
  }

  lemma {:induction false} OverflowRowsSnoc(tr: I18n.Translations, lang: string, bs: seq<MenuButton>, b: MenuButton)
    ensures OverflowRows(tr, lang, bs + [b]) == OverflowRows(tr, lang, bs) + [[RenderButton(tr, lang, b, false)]]
  {
    assert (bs + [b])[..|bs|] == bs;
  }

  /** Everything `buildRows` returns for the given (visible) buttons. */
  function KeyboardRows(tr: I18n.Translations, lang: string, bs: seq<MenuButton>, layout: seq<nat>): Keyboard {
    LayoutRows(tr, lang, bs, layout) + OverflowRows(tr, lang, bs[Consumed(|bs|, layout)..])
  }

  /** `LayoutRows` and `Consumed` take one layout entry at a time. */
  lemma {:induction false} LayoutUnfold(tr: I18n.Translations, lang: string, bs: seq<MenuButton>, layout: seq<nat>)
    requires |bs| > 0 && |layout| > 0
    ensures var n := RowTake(layout[0], |bs|);
            LayoutRows(tr, lang, bs, layout) ==
            (if n > 0 then [RenderRow(tr, lang, bs[..n], true)] else []) + LayoutRows(tr, lang, bs[n..], layout[1..])
  {
  }

  /** `LayoutUnfold` with its parts named by the caller. */
  lemma {:induction false} LayoutUnfoldAt(tr: I18n.Translations, lang: string, bs: seq<MenuButton>, layout: seq<nat>,
                                          n: nat, head: Keyboard, tailButtons: seq<MenuButton>, tailLayout: seq<nat>)
    requires |bs| > 0 && |layout| > 0 && n == RowTake(layout[0], |bs|)
    requires head == if n > 0 then [RenderRow(tr, lang, bs[..n], true)] else []
    requires tailButtons == bs[n..] && tailLayout == layout[1..]
    ensures LayoutRows(tr, lang, bs, layout) == head + LayoutRows(tr, lang, tailButtons, tailLayout)
  {
  }

  lemma {:induction false} ConsumedUnfold(bs: seq<MenuButton>, layout: seq<nat>, n: nat, tail: seq<MenuButton>)
    requires |bs| > 0 && |layout| > 0
    requires n == RowTake(layout[0], |bs|) && tail == bs[n..]
    ensures Consumed(|bs|, layout) == n + Consumed(|tail|, layout[1..])
  {
  }

  /** One layout entry of `buildRows`, seen from the whole button list: the
      rows it emits. */
  lemma {:induction false} LayoutStep(tr: I18n.Translations, lang: string, buttons: seq<MenuButton>, layout: seq<nat>,
                   idx: nat, k: nat, next: nat, row: Row)
    requires idx < |buttons| && k < |layout|
    requires next == idx + RowTake(layout[k], |buttons| - idx)
    requires row == RenderRow(tr, lang, buttons[idx..next], true)
    ensures LayoutRows(tr, lang, buttons[idx..], layout[k..]) ==
            (if |row| > 0 then [row] else []) + LayoutRows(tr, lang, buttons[next..], layout[k + 1..])
  {
    var bs := buttons[idx..];
    var rest := layout[k..];
    var n := next - idx;
    var emitted: Keyboard := if |row| > 0 then [row] else [];
    assert rest[0] == layout[k];
    assert bs[..n] == buttons[idx..next];
    assert |row| == n;
    assert bs[n..] == buttons[next..];
    assert rest[1..] == layout[k + 1..];
    LayoutUnfoldAt(tr, lang, bs, rest, n, emitted, buttons[next..], layout[k + 1..]);
  }

  /** One layout entry of `buildRows`: the buttons it places. */
  lemma {:induction false} ConsumedStep(buttons: nat, layout: seq<nat>, idx: nat, k: nat, next: nat)
    requires idx < buttons && k < |layout|
    requires next == idx + RowTake(layout[k], buttons - idx)
    ensures Consumed(buttons - idx, layout[k..]) == (next - idx) + Consumed(buttons - next, layout[k + 1..])
  {
    var rest := layout[k..];
    assert rest[0] == layout[k];
    assert rest[1..] == layout[k + 1..];
  }

  /** The inner loop of `buildRows`: renders the next buttons of one layout
      row, stopping at the row size or at the last button. */
  method FillRow(tr: I18n.Translations, lang: string, buttons: seq<MenuButton>, start: nat, rowSize: nat)
    returns (rowButtons: Row, buttonIdx: nat)
    requires start <= |buttons|
    ensures buttonIdx == start + RowTake(rowSize, |buttons| - start)
    ensures rowButtons == RenderRow(tr, lang, buttons[start..buttonIdx], true)
  {
    rowButtons := [];
    buttonIdx := start;
    var i := 0;
    while i < rowSize && buttonIdx < |buttons|
      invariant start <= buttonIdx <= |buttons|
      invariant buttonIdx - start == i
      invariant i <= rowSize
      invariant rowButtons == RenderRow(tr, lang, buttons[start..buttonIdx], true)
    {
      var key := LayoutKey(tr, lang, buttons[buttonIdx]);
      FillStep(tr, lang, buttons, start, buttonIdx, rowButtons, key);
      rowButtons := rowButtons + [key];
      buttonIdx := buttonIdx + 1;
      i := i + 1;
    }
    FillDone(rowSize, buttons, start, i);
  }

  /** The inner loop stops after exactly `RowTake` buttons. */
  lemma {:induction false} FillDone(rowSize: nat, buttons: seq<MenuButton>, start: nat, i: nat)
    requires start + i <= |buttons| && i <= rowSize
    requires i >= rowSize || start + i == |buttons|
    ensures i == RowTake(rowSize, |buttons| - start)
  {
  }

  /** The key `buildRows` makes for a button in a layout row: a location
      request for the location button, a text button otherwise. */
  method LayoutKey(tr: I18n.Translations, lang: string, btn: MenuButton) returns (key: KeyButton)
    ensures key == RenderButton(tr, lang, btn, true)
  {
    var buttonText := ButtonTextAsWritten(tr, lang, btn);
    if btn.textKey == LocationKey {
      key := LocationButton(buttonText);
    } else {
      key := TextButton(buttonText);
    }
  }

  /** Rendering one more button of a layout row extends the row by it. */
  lemma {:induction false} FillStep(tr: I18n.Translations, lang: string, buttons: seq<MenuButton>, start: nat, idx: nat,
                                    rowButtons: Row, key: KeyButton)
    requires start <= idx < |buttons|
    requires rowButtons == RenderRow(tr, lang, buttons[start..idx], true)
    requires key == RenderButton(tr, lang, buttons[idx], true)
    ensures rowButtons + [key] == RenderRow(tr, lang, buttons[start..idx + 1], true)
  {
    SliceSnoc(buttons, start, idx);
    RenderRowSnoc(tr, lang, buttons[start..idx], buttons[idx], true);
  }

  /** The layout phase is over once the buttons or the layout entries run out. */
  lemma {:induction false} LayoutDone(tr: I18n.Translations, lang: string, buttons: seq<MenuButton>, layout: seq<nat>, idx: nat, k: nat)
    requires idx <= |buttons| && k <= |layout|
    requires idx == |buttons| || k == |layout|
    ensures LayoutRows(tr, lang, buttons[idx..], layout[k..]) == []
    ensures Consumed(|buttons| - idx, layout[k..]) == 0
  {
  }

  /** One pass of the outer loop of `buildRows` keeps the rows placed so far,
      followed by the rows still to come, equal to the layout rows. */
  lemma {:induction false} OuterStep(tr: I18n.Translations, lang: string, buttons: seq<MenuButton>, layout: seq<nat>,
                  layoutRows: Keyboard, rows: Keyboard, idx: nat, k: nat, next: nat, row: Row)
    requires idx < |buttons| && k < |layout|
    requires rows + LayoutRows(tr, lang, buttons[idx..], layout[k..]) == layoutRows
    requires next == idx + RowTake(layout[k], |buttons| - idx)
    requires row == RenderRow(tr, lang, buttons[idx..next], true)
    ensures (rows + (if |row| > 0 then [row] else [])) + LayoutRows(tr, lang, buttons[next..], layout[k + 1..]) == layoutRows
  {
    var emitted: Keyboard := if |row| > 0 then [row] else [];
    var rows' := rows + emitted;
    LayoutStep(tr, lang, buttons, layout, idx, k, next, row);
    ChainRows(rows, emitted, LayoutRows(tr, lang, buttons[idx..], layout[k..]),
              LayoutRows(tr, lang, buttons[next..], layout[k + 1..]), rows', layoutRows);
  }

  /** One pass of the outer loop of `buildRows` keeps the count of placed
      buttons. */
  lemma {:induction false} ConsumedAdvance(buttons: seq<MenuButton>, layout: seq<nat>, consumed: nat, idx: nat, k: nat, next: nat)
    requires idx < |buttons| && k < |layout|
    requires idx + Consumed(|buttons| - idx, layout[k..]) == consumed
    requires next == idx + RowTake(layout[k], |buttons| - idx)
    ensures next + Consumed(|buttons| - next, layout[k + 1..]) == consumed
  {
    ConsumedStep(|buttons|, layout, idx, k, next);
  }

  /** Moving the emitted rows from the pending part to the placed part keeps
      the whole. */
  lemma {:induction false} ChainRows(rows: Keyboard, emitted: Keyboard, pending: Keyboard, later: Keyboard,
                                     rows': Keyboard, whole: Keyboard)
    requires rows + pending == whole && pending == emitted + later && rows' == rows + emitted
    ensures rows' + later == whole
  {
    AppendAssociates(rows, emitted, later);
  }

  /** The first loop of `buildRows`: one row per layout entry until the
      buttons run out; returns the rows and the index of the first button left
      over. */
  method PlaceLayoutRows(tr: I18n.Translations, lang: string, buttons: seq<MenuButton>, layout: seq<nat>)
    returns (rows: Keyboard, buttonIdx: nat)
    ensures rows == LayoutRows(tr, lang, buttons, layout)
    ensures buttonIdx == Consumed(|buttons|, layout)
  {
    ghost var layoutRows := LayoutRows(tr, lang, buttons, layout);
    ghost var consumed := Consumed(|buttons|, layout);
    rows := [];
    buttonIdx := 0;
    var k := 0;
    assert buttons[0..] == buttons && layout[0..] == layout;
    while k < |layout|
      invariant 0 <= k <= |layout|
      invariant 0 <= buttonIdx <= |buttons|
      invariant rows + LayoutRows(tr, lang, buttons[buttonIdx..], layout[k..]) == layoutRows
      invariant buttonIdx + Consumed(|buttons| - buttonIdx, layout[k..]) == consumed
    {
      if buttonIdx >= |buttons| {
        break;
      }
      rows, buttonIdx := PlaceRow(tr, lang, buttons, layout, k, rows, buttonIdx, layoutRows, consumed);
      k := k + 1;
    }
    LayoutDone(tr, lang, buttons, layout, buttonIdx, k);
    NothingPending(rows, LayoutRows(tr, lang, buttons[buttonIdx..], layout[k..]), layoutRows);
  }

  /** Once nothing is pending, the rows placed are the whole. */
  lemma {:induction false} NothingPending(rows: Keyboard, pending: Keyboard, whole: Keyboard)
    requires rows + pending == whole && pending == []
    ensures rows == whole
  {
    assert rows + [] == rows;
  }

  /** One pass of the outer loop of `buildRows`: the row for layout entry `k`,
      appended when it is not empty. */
  method PlaceRow(tr: I18n.Translations, lang: string, buttons: seq<MenuButton>, layout: seq<nat>, k: nat,
                  rows: Keyboard, start: nat, ghost layoutRows: Keyboard, ghost consumed: nat)
    returns (rows': Keyboard, next: nat)
    requires k < |layout| && start < |buttons|
    requires rows + LayoutRows(tr, lang, buttons[start..], layout[k..]) == layoutRows
    requires start + Consumed(|buttons| - start, layout[k..]) == consumed
    ensures next <= |buttons|
    ensures rows' + LayoutRows(tr, lang, buttons[next..], layout[k + 1..]) == layoutRows
    ensures next + Consumed(|buttons| - next, layout[k + 1..]) == consumed
  {
    var rowButtons;
    rowButtons, next := FillRow(tr, lang, buttons, start, layout[k]);
    OuterStep(tr, lang, buttons, layout, layoutRows, rows, start, k, next, rowButtons);
    ConsumedAdvance(buttons, layout, consumed, start, k, next);
    rows' := rows;
    if |rowButtons| > 0 {
      rows' := rows + [rowButtons];
    } else {
      assert rows' == rows + [];
    }
  }

  /** `buildRows`: the layout rows, then each remaining button on a row of its
      own. */
  method BuildRows(tr: I18n.Translations, lang: string, buttons: seq<MenuButton>, layout: seq<nat>)
    returns (rows: Keyboard)
    ensures rows == KeyboardRows(tr, lang, buttons, layout)
  {
    var buttonIdx;
    rows, buttonIdx := PlaceLayoutRows(tr, lang, buttons, layout);
    rows := PlaceOverflowRows(tr, lang, buttons, buttonIdx, rows);
  }

  /** The second loop of `buildRows`: each button from `start` on gets a text
      row of its own, after the rows already placed. */
  method PlaceOverflowRows(tr: I18n.Translations, lang: string, buttons: seq<MenuButton>, start: nat, placed: Keyboard)
    returns (rows: Keyboard)
    requires start <= |buttons|
    ensures rows == placed + OverflowRows(tr, lang, buttons[start..])
  {
    rows := placed;
    var buttonIdx := start;
    assert buttons[start..buttonIdx] == [];
    while buttonIdx < |buttons|
      invariant start <= buttonIdx <= |buttons|
      invariant rows == placed + OverflowRows(tr, lang, buttons[start..buttonIdx])
    {
      var btn := buttons[buttonIdx];
      var buttonText := ButtonTextAsWritten(tr, lang, btn);
      OverflowStep(tr, lang, buttons, placed, start, buttonIdx, rows, TextButton(buttonText));
      rows := rows + [[TextButton(buttonText)]];
      buttonIdx := buttonIdx + 1;
    }
    assert buttons[start..buttonIdx] == buttons[start..];
  }

  /** One more leftover button adds its own text row. */
  lemma {:induction false} OverflowStep(tr: I18n.Translations, lang: string, buttons: seq<MenuButton>,
                                        layoutRows: Keyboard, consumed: nat, idx: nat, rows: Keyboard, key: KeyButton)
    requires consumed <= idx < |buttons|
    requires rows == layoutRows + OverflowRows(tr, lang, buttons[consumed..idx])
    requires key == TextButton(ButtonTextAsWritten(tr, lang, buttons[idx]))
    ensures rows + [[key]] == layoutRows + OverflowRows(tr, lang, buttons[consumed..idx + 1])
  {
    var placed := buttons[consumed..idx];
    SliceSnoc(buttons, consumed, idx);
    OverflowRowsSnoc(tr, lang, placed, buttons[idx]);
    assert RenderButton(tr, lang, buttons[idx], false) == key;
    AppendAssociates(layoutRows, OverflowRows(tr, lang, placed), [[key]]);
  }

  // ---------------------------------------------------------------------
  // What the rows contain

  lemma {:induction false} FlattenSingle(row: Row)
    ensures Flatten([row]) == row
  {
    assert [row][..0] == [];
  }

  /** The row a layout entry emits, if any, shows the buttons it took. */
  lemma {:induction false} HeadRowLabels(tr: I18n.Translations, lang: string, taken: seq<MenuButton>, head: Keyboard)
    requires head == if |taken| > 0 then [RenderRow(tr, lang, taken, true)] else []
    ensures Labels(Flatten(head)) == Texts(tr, lang, taken)
  {
    if |taken| > 0 {
      FlattenSingle(head[0]);
    }
    RenderRowLabels(tr, lang, taken, true);
  }

  /** The layout rows show the first `Consumed` buttons, in order, each once. */
  lemma {:induction false} LayoutRowsLabels(tr: I18n.Translations, lang: string, bs: seq<MenuButton>, layout: seq<nat>)
    ensures Labels(Flatten(LayoutRows(tr, lang, bs, layout))) == Texts(tr, lang, bs[..Consumed(|bs|, layout)])
    decreases |layout|
  {
    if |layout| == 0 || |bs| == 0 {
      assert bs[..0] == [];
    } else {
      var n := RowTake(layout[0], |bs|);
      LayoutRowsLabels(tr, lang, bs[n..], layout[1..]);
      LayoutRowsLabelsStep(tr, lang, bs, layout);
    }
  }

  /** The inductive step of `LayoutRowsLabels`: one layout entry. */
  lemma {:induction false} LayoutRowsLabelsStep(tr: I18n.Translations, lang: string, bs: seq<MenuButton>, layout: seq<nat>)
    requires |layout| > 0 && |bs| > 0
    requires var tail := bs[RowTake(layout[0], |bs|)..];
             Labels(Flatten(LayoutRows(tr, lang, tail, layout[1..]))) ==
             Texts(tr, lang, tail[..Consumed(|tail|, layout[1..])])
    ensures Labels(Flatten(LayoutRows(tr, lang, bs, layout))) == Texts(tr, lang, bs[..Consumed(|bs|, layout)])
  {
    var n := RowTake(layout[0], |bs|);
    var tail := bs[n..];
    var c := Consumed(|tail|, layout[1..]);
    var total := Consumed(|bs|, layout);
    ConsumedUnfold(bs, layout, n, tail);
    var rest := LayoutRows(tr, lang, tail, layout[1..]);
    var head: Keyboard := if n > 0 then [RenderRow(tr, lang, bs[..n], true)] else [];
    LayoutUnfoldAt(tr, lang, bs, layout, n, head, tail, layout[1..]);
    ConcatLabels(tr, lang, bs, n, c, head, rest);
    LabelsGlue(tr, lang, bs, LayoutRows(tr, lang, bs, layout), total, n, c, head, rest);
  }

  lemma {:induction false} LabelsGlue(tr: I18n.Translations, lang: string, bs: seq<MenuButton>, whole: Keyboard,
                                      total: nat, n: nat, c: nat, head: Keyboard, rest: Keyboard)
    requires n + c <= |bs| && total == n + c
    requires whole == head + rest
    requires Labels(Flatten(head + rest)) == Texts(tr, lang, bs[..n + c])
    ensures Labels(Flatten(whole)) == Texts(tr, lang, bs[..total])
  {
  }

  /** The labels of one layout row followed by the rows after it. */
  lemma {:induction false} ConcatLabels(tr: I18n.Translations, lang: string, bs: seq<MenuButton>, n: nat, c: nat,
                                        head: Keyboard, rest: Keyboard)
    requires n + c <= |bs|
    requires head == if n > 0 then [RenderRow(tr, lang, bs[..n], true)] else []
    requires Labels(Flatten(rest)) == Texts(tr, lang, bs[n..][..c])
    ensures Labels(Flatten(head + rest)) == Texts(tr, lang, bs[..n + c])
  {
    var tail := bs[n..];
    HeadRowLabels(tr, lang, bs[..n], head);
    calc {
      Labels(Flatten(head + rest));
      { FlattenAppend(head, rest); }
      Labels(Flatten(head) + Flatten(rest));
      { LabelsAppend(Flatten(head), Flatten(rest)); }
      Labels(Flatten(head)) + Labels(Flatten(rest));
      Texts(tr, lang, bs[..n]) + Texts(tr, lang, tail[..c]);
      { TextsAppend(tr, lang, bs[..n], tail[..c]); }
      Texts(tr, lang, bs[..n] + tail[..c]);
      { PrefixSplit(bs, n, c); }
      Texts(tr, lang, bs[..n + c]);
    }
  }

  /** Overflow row k holds exactly button k, as a text button. */
  lemma {:induction false} OverflowRowsSingle(tr: I18n.Translations, lang: string, bs: seq<MenuButton>)
    ensures forall k :: 0 <= k < |bs| ==>
              OverflowRows(tr, lang, bs)[k] == [TextButton(ButtonTextAsWritten(tr, lang, bs[k]))]
    decreases |bs|
  {
    if |bs| > 0 {
      OverflowRowsSingle(tr, lang, bs[..|bs| - 1]);
    }
  }

  lemma {:induction false} OverflowRowsLabels(tr: I18n.Translations, lang: string, bs: seq<MenuButton>)
    ensures Labels(Flatten(OverflowRows(tr, lang, bs))) == Texts(tr, lang, bs)
    decreases |bs|
  {
    if |bs| > 0 {
      var init := bs[..|bs| - 1];
      var last := [RenderButton(tr, lang, bs[|bs| - 1], false)];
      OverflowRowsLabels(tr, lang, init);
      FlattenAppend(OverflowRows(tr, lang, init), [last]);
      FlattenSingle(last);
      LabelsAppend(Flatten(OverflowRows(tr, lang, init)), last);
      assert Labels(last) == [ButtonTextAsWritten(tr, lang, bs[|bs| - 1])] by {
        assert last[..0] == [];
      }
    }
  }

  /** `buildRows` shows every button it is given, in order, each exactly
      once: reading the keyboard row by row gives the buttons' labels. */
  lemma {:induction false} KeyboardRowsLabels(tr: I18n.Translations, lang: string, bs: seq<MenuButton>, layout: seq<nat>)
    ensures Labels(Flatten(KeyboardRows(tr, lang, bs, layout))) == Texts(tr, lang, bs)
  {
    var c := Consumed(|bs|, layout);
    var placed := LayoutRows(tr, lang, bs, layout);
    var overflow := OverflowRows(tr, lang, bs[c..]);
    assert KeyboardRows(tr, lang, bs, layout) == placed + overflow;
    calc {
      Labels(Flatten(placed + overflow));
      { FlattenAppend(placed, overflow); }
      Labels(Flatten(placed) + Flatten(overflow));
      { LabelsAppend(Flatten(placed), Flatten(overflow)); }
      Labels(Flatten(placed)) + Labels(Flatten(overflow));
      { LayoutRowsLabels(tr, lang, bs, layout); OverflowRowsLabels(tr, lang, bs[c..]); }
      Texts(tr, lang, bs[..c]) + Texts(tr, lang, bs[c..]);
      { TextsSplit(tr, lang, bs, c); }
      Texts(tr, lang, bs);
    }
  }

  lemma {:induction false} TextsSplit(tr: I18n.Translations, lang: string, bs: seq<MenuButton>, c: nat)
    requires c <= |bs|
    ensures Texts(tr, lang, bs[..c]) + Texts(tr, lang, bs[c..]) == Texts(tr, lang, bs)
  {
    TextsAppend(tr, lang, bs[..c], bs[c..]);
    assert bs[..c] + bs[c..] == bs;
  }

  /** The layout phase never emits an empty row. */
  lemma {:induction false} LayoutRowsNonEmpty(tr: I18n.Translations, lang: string, bs: seq<MenuButton>, layout: seq<nat>)
    ensures forall k :: 0 <= k < |LayoutRows(tr, lang, bs, layout)| ==> |LayoutRows(tr, lang, bs, layout)[k]| > 0
    decreases |layout|
  {
    if |layout| > 0 && |bs| > 0 {
      var n := RowTake(layout[0], |bs|);
      LayoutRowsNonEmpty(tr, lang, bs[n..], layout[1..]);
    }
  }

  /** No row of `buildRows` is empty, and the overflow rows, which follow the
      layout rows, each hold one text button: only the layout phase can
      produce a location button. */
  lemma {:induction false} KeyboardRowsShape(tr: I18n.Translations, lang: string, bs: seq<MenuButton>, layout: seq<nat>)
    ensures var rows := KeyboardRows(tr, lang, bs, layout);
            forall k :: 0 <= k < |rows| ==> |rows[k]| > 0
    ensures var rows := KeyboardRows(tr, lang, bs, layout);
            var placed := |LayoutRows(tr, lang, bs, layout)|;
            var c := Consumed(|bs|, layout);
            |rows| == placed + (|bs| - c) &&
            forall j :: 0 <= j < |bs| - c ==> rows[placed..][j] == [TextButton(ButtonTextAsWritten(tr, lang, bs[c..][j]))]
  {
    KeyboardRowsNonEmpty(tr, lang, bs, layout);
    var c := Consumed(|bs|, layout);
    var placed := LayoutRows(tr, lang, bs, layout);
    var rows := KeyboardRows(tr, lang, bs, layout);
    assert rows == placed + OverflowRows(tr, lang, bs[c..]);
    assert rows[|placed|..] == OverflowRows(tr, lang, bs[c..]);
    OverflowRowsSingle(tr, lang, bs[c..]);
  }

  lemma {:induction false} KeyboardRowsNonEmpty(tr: I18n.Translations, lang: string, bs: seq<MenuButton>, layout: seq<nat>)
    ensures var rows := KeyboardRows(tr, lang, bs, layout);
            forall k :: 0 <= k < |rows| ==> |rows[k]| > 0
  {
    var c := Consumed(|bs|, layout);
    var placed := LayoutRows(tr, lang, bs, layout);
    var over := OverflowRows(tr, lang, bs[c..]);
    var rows := KeyboardRows(tr, lang, bs, layout);
    assert rows == placed + over;
    LayoutRowsNonEmpty(tr, lang, bs, layout);
    OverflowRowsSingle(tr, lang, bs[c..]);
    forall k | 0 <= k < |rows|
      ensures |rows[k]| > 0
    {
      if k < |placed| {
        assert rows[k] == placed[k];
      } else {
        assert rows[k] == over[k - |placed|];
      }
    }
  }

  /** With a layout of positive sizes, layout row k holds at most `layout[k]`
      buttons and every layout row but the last is full. */
  lemma {:induction false} LayoutRowsFit(tr: I18n.Translations, lang: string, bs: seq<MenuButton>, layout: seq<nat>)
    requires forall j :: 0 <= j < |layout| ==> layout[j] > 0
    ensures var rows := LayoutRows(tr, lang, bs, layout);
            |rows| <= |layout| &&
            (forall k :: 0 <= k < |rows| ==> |rows[k]| <= layout[k]) &&
            (forall k :: 0 <= k < |rows| - 1 ==> |rows[k]| == layout[k])
    decreases |layout|
  {
    if |layout| > 0 && |bs| > 0 {
      var n := RowTake(layout[0], |bs|);
      var rest := LayoutRows(tr, lang, bs[n..], layout[1..]);
      LayoutRowsFit(tr, lang, bs[n..], layout[1..]);
      assert LayoutRows(tr, lang, bs, layout) == [RenderRow(tr, lang, bs[..n], true)] + rest;
      if |rest| > 0 {
        assert n == layout[0];
      }
    }
  }

  // ---------------------------------------------------------------------
  // Whole keyboards

  /** The single back button row. */
  function BackRow(s: Session): Row {
    [TextButton(T(s, BackKey))]
  }

  /** The keyboard `Build` produces: the back-only fallback for a menu type
      that is not registered; otherwise the rows of the visible buttons,
      followed by a back row when the menu has one. */
  function MenuKeyboard(reg: Registry, menuType: MenuType, s: Session): (kb: Keyboard)
    ensures menuType !in reg ==> |kb| == 1
    ensures menuType !in reg || reg[menuType].hasBack ==> |kb| > 0 && kb[|kb| - 1] == BackRow(s)
  {
    if menuType !in reg then [BackRow(s)]
    else
      var d := reg[menuType];
      KeyboardRows(s.translations, s.lang, VisibleButtons(d.buttons, s), d.layout) +
      (if d.hasBack then [BackRow(s)] else [])
  }

  /** What a built keyboard shows. An unregistered menu gets one row with the
      back button. A registered one shows the labels of its visible buttons in
      declared order, each once, in non-empty rows, and then exactly one back
      row if and only if the menu has `HasBack`. */
  lemma {:induction false} MenuKeyboardContents(reg: Registry, menuType: MenuType, s: Session)
    ensures menuType !in reg ==> MenuKeyboard(reg, menuType, s) == [[TextButton(T(s, BackKey))]]
    ensures menuType in reg ==>
              var kb := MenuKeyboard(reg, menuType, s);
              var backRows := if reg[menuType].hasBack then 1 else 0;
              |kb| >= backRows &&
              Labels(Flatten(kb[..|kb| - backRows])) ==
                Texts(s.translations, s.lang, VisibleButtons(reg[menuType].buttons, s)) &&
              (forall k :: 0 <= k < |kb| ==> |kb[k]| > 0) &&
              (reg[menuType].hasBack ==> kb[|kb| - 1] == BackRow(s))
  {
    if menuType in reg {
      var d := reg[menuType];
      var visible := VisibleButtons(d.buttons, s);
      var body := KeyboardRows(s.translations, s.lang, visible, d.layout);
      var tail: Keyboard := if d.hasBack then [BackRow(s)] else [];
      KeyboardRowsLabels(s.translations, s.lang, visible, d.layout);
      KeyboardRowsNonEmpty(s.translations, s.lang, visible, d.layout);
      BodyThenTail(body, tail, MenuKeyboard(reg, menuType, s), BackRow(s));
    }
  }

  /** A keyboard made of body rows and at most one trailing back row: the body
      is everything but that row, and every row is non-empty when the body's
      rows and the back row are. */
  lemma {:induction false} BodyThenTail(body: Keyboard, tail: Keyboard, kb: Keyboard, back: Row)
    requires kb == body + tail && (tail == [] || tail == [back])
    ensures |kb| >= |tail| && kb[..|kb| - |tail|] == body
    ensures (forall k :: 0 <= k < |body| ==> |body[k]| > 0) && |back| > 0 ==> forall k :: 0 <= k < |kb| ==> |kb[k]| > 0
    ensures tail == [back] ==> kb[|kb| - 1] == back
  {
    assert kb[..|kb| - |tail|] == body;
  }

  /** The message `ShowMenu` sends with a keyboard: the given message key, or
      else the menu's title, or else the generic welcome-back text. */
  function MessageKey(reg: Registry, menuType: MenuType, messageKey: string): (key: string)
    ensures messageKey != "" ==> key == messageKey
    ensures messageKey == "" && menuType in reg && reg[menuType].titleKey != "" ==> key == reg[menuType].titleKey
    ensures messageKey == "" && (menuType !in reg || reg[menuType].titleKey == "") ==> key == WelcomeBackKey
  {
    if messageKey != "" then messageKey
    else if menuType in reg && reg[menuType].titleKey != "" then reg[menuType].titleKey
    else WelcomeBackKey
  }

  /** The menu `NavigateBack` shows for a history: the top of the history left
      after one pop, the main menu when that is empty or names no menu. */
  function PreviousMenu(history: seq<MenuType>): (m: MenuType)
    ensures m != ""
    ensures |history| <= 1 ==> m == MenuMain
    ensures |history| >= 2 && history[|history| - 2] != "" ==> m == history[|history| - 2]
    ensures |history| >= 2 && history[|history| - 2] == "" ==> m == MenuMain
  {
    var top := Top(Popped(history));
    if top == "" then MenuMain else top
  }

  // ---------------------------------------------------------------------
  // Resolving a pressed label back to its button

  /** What a pressed label leads to: a handler name and a submenu, either of
      which may be empty. */
  datatype Target = Target(handler: string, subMenu: MenuType)

  const NoTarget := Target("", "")

  /** One label the resolver compares against, with the button it stands for. */
  datatype Candidate = Candidate(text: string, target: Target)

  /** The menus the resolver searches, in order; `near_tasks` is not among them. */
  const SearchOrder: seq<MenuType> := [MenuMain, MenuTasks, MenuProfile, MenuStats, MenuMore, MenuAdmin]

  /** The languages the resolver tries: the user's, then English, or
      Ukrainian when the user's language is English. */
  function FallbackLanguages(lang: string): (langs: seq<string>)
    ensures |langs| == 2 && langs[0] == lang && langs[1] != lang
    ensures langs[1] == I18n.English || langs[1] == I18n.Ukrainian
  {
    if lang != I18n.English then [lang, I18n.English] else [lang, I18n.Ukrainian]
  }

  function TargetOf(b: MenuButton): Target {
    Target(b.handler, b.subMenu)
  }

  function LangCandidates(tr: I18n.Translations, b: MenuButton, langs: seq<string>): seq<Candidate>
    decreases |langs|
  {
    if |langs| == 0 then []
    else [Candidate(ButtonText(tr, langs[0], b), TargetOf(b))] + LangCandidates(tr, b, langs[1..])
  }

  function ButtonCandidates(tr: I18n.Translations, bs: seq<MenuButton>, langs: seq<string>): seq<Candidate>
    decreases |bs|
  {
    if |bs| == 0 then []
    else LangCandidates(tr, bs[0], langs) + ButtonCandidates(tr, bs[1..], langs)
  }

  function MenuCandidates(reg: Registry, tr: I18n.Translations, menus: seq<MenuType>, langs: seq<string>): seq<Candidate>
    decreases |menus|
  {
    if |menus| == 0 then []
    else
      (if menus[0] in reg then ButtonCandidates(tr, reg[menus[0]].buttons, langs) else []) +
      MenuCandidates(reg, tr, menus[1..], langs)
  }

  /** The target of the first candidate whose label is `text`. */
  function FirstMatch(cands: seq<Candidate>, text: string): Target
    decreases |cands|
  {
    if |cands| == 0 then NoTarget
    else if cands[0].text == text then cands[0].target
    else FirstMatch(cands[1..], text)
  }

  /** `ResolveHandlerFromButtonText`, as a function of the registry, the
      translations, the user's language and the pressed text. */
  function Resolve(reg: Registry, tr: I18n.Translations, lang: string, text: string): (r: Target)
    ensures r != NoTarget ==>
              exists j :: 0 <= j < |MenuCandidates(reg, tr, SearchOrder, FallbackLanguages(lang))| &&
                          MenuCandidates(reg, tr, SearchOrder, FallbackLanguages(lang))[j] == Candidate(text, r)
  {
    var cands := MenuCandidates(reg, tr, SearchOrder, FallbackLanguages(lang));
    if exists j :: 0 <= j < |cands| && cands[j].text == text then
      FirstMatchSound(cands, text);
      FirstMatch(cands, text)
    else
      FirstMatchNone(cands, text);
      FirstMatch(cands, text)
  }

  /** `FirstMatch` finds the first candidate with the label... */
  lemma {:induction false} FirstMatchFound(cands: seq<Candidate>, text: string, i: nat)
    requires i < |cands| && cands[i].text == text
    requires forall j :: 0 <= j < i ==> cands[j].text != text
    ensures FirstMatch(cands, text) == cands[i].target
    decreases i
  {
    if i > 0 {
      FirstMatchFound(cands[1..], text, i - 1);
    }
  }

  /** ... and yields no target when no candidate has it. */
  lemma {:induction false} FirstMatchNone(cands: seq<Candidate>, text: string)
    requires forall j :: 0 <= j < |cands| ==> cands[j].text != text
    ensures FirstMatch(cands, text) == NoTarget
    decreases |cands|
  {
    if |cands| > 0 {
      FirstMatchNone(cands[1..], text);
    }
  }

  /** When some candidate carries the label, `FirstMatch` returns the target
      of one that does. */
  lemma {:induction false} FirstMatchSound(cands: seq<Candidate>, text: string)
    requires exists j :: 0 <= j < |cands| && cands[j].text == text
    ensures exists j :: 0 <= j < |cands| && cands[j].text == text && cands[j].target == FirstMatch(cands, text)
    decreases |cands|
  {
    if cands[0].text != text {
      var j :| 0 <= j < |cands| && cands[j].text == text;
      assert cands[1..][j - 1] == cands[j];
      FirstMatchSound(cands[1..], text);
      var k :| 0 <= k < |cands| - 1 && cands[1..][k].text == text && cands[1..][k].target == FirstMatch(cands[1..], text);
      assert cands[k + 1] == cands[1..][k];
    }
  }

  lemma {:induction false} LangCandidatesHas(tr: I18n.Translations, b: MenuButton, langs: seq<string>, lang: string)
    requires lang in langs
    ensures Candidate(ButtonText(tr, lang, b), TargetOf(b)) in LangCandidates(tr, b, langs)
    decreases |langs|
  {
    if langs[0] != lang {
      LangCandidatesHas(tr, b, langs[1..], lang);
    }
  }

  lemma {:induction false} ButtonCandidatesHas(tr: I18n.Translations, bs: seq<MenuButton>, langs: seq<string>,
                                               b: MenuButton, lang: string)
    requires b in bs && lang in langs
    ensures Candidate(ButtonText(tr, lang, b), TargetOf(b)) in ButtonCandidates(tr, bs, langs)
    decreases |bs|
  {
    if bs[0] == b {
      LangCandidatesHas(tr, b, langs, lang);
    } else {
      ButtonCandidatesHas(tr, bs[1..], langs, b, lang);
    }
  }

  /** Every button of every searched, registered menu contributes its label in
      every tried language. */
  lemma {:induction false} MenuCandidatesHas(reg: Registry, tr: I18n.Translations, menus: seq<MenuType>,
                                             langs: seq<string>, m: MenuType, b: MenuButton, lang: string)
    requires m in menus && m in reg && b in reg[m].buttons && lang in langs
    ensures Candidate(ButtonText(tr, lang, b), TargetOf(b)) in MenuCandidates(reg, tr, menus, langs)
    decreases |menus|
  {
    if menus[0] == m {
      ButtonCandidatesHas(tr, reg[m].buttons, langs, b, lang);
    } else {
      MenuCandidatesHas(reg, tr, menus[1..], langs, m, b, lang);
    }
  }

  /** Resolving the label that a button of a searched menu shows in the user's
      language returns that button's handler and submenu, as long as no other
      candidate with the same label leads elsewhere. */
  lemma {:induction false} ResolveRoundTrip(reg: Registry, tr: I18n.Translations, lang: string, m: MenuType, b: MenuButton)
    requires m in SearchOrder && m in reg && b in reg[m].buttons
    requires var cands := MenuCandidates(reg, tr, SearchOrder, FallbackLanguages(lang));
             forall j :: 0 <= j < |cands| && cands[j].text == ButtonText(tr, lang, b) ==> cands[j].target == TargetOf(b)
    ensures Resolve(reg, tr, lang, ButtonText(tr, lang, b)) == TargetOf(b)
  {
    var cands := MenuCandidates(reg, tr, SearchOrder, FallbackLanguages(lang));
    var text := ButtonText(tr, lang, b);
    MenuCandidatesHas(reg, tr, SearchOrder, FallbackLanguages(lang), m, b, lang);
    var i :| 0 <= i < |cands| && cands[i] == Candidate(text, TargetOf(b));
    FirstMatchSound(cands, text);
  }

  /** A handler that no searched button has is never the resolver's answer. */
  lemma {:induction false} MenuCandidatesAvoid(reg: Registry, tr: I18n.Translations, menus: seq<MenuType>,
                                               langs: seq<string>, handler: string)
    requires forall i, j :: 0 <= i < |menus| && menus[i] in reg && 0 <= j < |reg[menus[i]].buttons| ==>
               reg[menus[i]].buttons[j].handler != handler
    ensures forall c :: c in MenuCandidates(reg, tr, menus, langs) ==> c.target.handler != handler
    decreases |menus|
  {
    if |menus| > 0 {
      MenuCandidatesAvoid(reg, tr, menus[1..], langs, handler);
      if menus[0] in reg {
        ButtonCandidatesAvoid(tr, reg[menus[0]].buttons, langs, handler);
      }
    }
  }

  lemma {:induction false} ButtonCandidatesAvoid(tr: I18n.Translations, bs: seq<MenuButton>, langs: seq<string>, handler: string)
    requires forall j :: 0 <= j < |bs| ==> bs[j].handler != handler
    ensures forall c :: c in ButtonCandidates(tr, bs, langs) ==> c.target.handler != handler
    decreases |bs|
  {
    if |bs| > 0 {
      ButtonCandidatesAvoid(tr, bs[1..], langs, handler);
      LangCandidatesTarget(tr, bs[0], langs);
    }
  }

  lemma {:induction false} LangCandidatesTarget(tr: I18n.Translations, b: MenuButton, langs: seq<string>)
    ensures forall c :: c in LangCandidates(tr, b, langs) ==> c.target == TargetOf(b)
    decreases |langs|
  {
    if |langs| > 0 {
      LangCandidatesTarget(tr, b, langs[1..]);
    }
  }

  /** The near-tasks menu is not searched, so no pressed text ever resolves to
      its location handler. */
  lemma {:induction false} ResolveSkipsNearTasks(tr: I18n.Translations, lang: string, text: string)
    ensures Resolve(DeclaredMenus(), tr, lang, text).handler != "near_tasks_location"
  {
    var reg := DeclaredMenus();
    forall i, j | 0 <= i < |SearchOrder| && SearchOrder[i] in reg && 0 <= j < |reg[SearchOrder[i]].buttons|
      ensures reg[SearchOrder[i]].buttons[j].handler != "near_tasks_location"
    {
      DeclaredMenuCases(SearchOrder[i]);
    }
    ResolveAvoids(reg, tr, lang, text, "near_tasks_location");
  }

  /** A handler that no button of a searched menu carries is never resolved. */
  lemma {:induction false} ResolveAvoids(reg: Registry, tr: I18n.Translations, lang: string, text: string, handler: string)
    requires forall i, j :: 0 <= i < |SearchOrder| && SearchOrder[i] in reg && 0 <= j < |reg[SearchOrder[i]].buttons| ==>
               reg[SearchOrder[i]].buttons[j].handler != handler
    requires handler != ""
    ensures Resolve(reg, tr, lang, text).handler != handler
  {
    var langs := FallbackLanguages(lang);
    MenuCandidatesAvoid(reg, tr, SearchOrder, langs, handler);
    var cands := MenuCandidates(reg, tr, SearchOrder, langs);
    if exists j :: 0 <= j < |cands| && cands[j].text == text {
      FirstMatchSound(cands, text);
    } else {
      FirstMatchNone(cands, text);
    }
  }

  lemma {:induction false} MenuCandidatesUnregistered(reg: Registry, tr: I18n.Translations, menus: seq<MenuType>, langs: seq<string>)
    requires forall i :: 0 <= i < |menus| ==> menus[i] !in reg
    ensures MenuCandidates(reg, tr, menus, langs) == []
    decreases |menus|
  {
    if |menus| > 0 {
      MenuCandidatesUnregistered(reg, tr, menus[1..], langs);
    }
  }

  /** A registry whose main menu holds only `PinButton`. */
  function PinRegistry(): Registry {
    map[MenuMain := MenuDefinition(MenuMain, "", [PinButton()], [1], false)]
  }

  /** Pressing the button of `PinRegistry` as the source labels it resolves to
      nothing; with the corrected label it resolves to the button. */
  lemma {:induction false} AsWrittenLabelDoesNotResolve()
    ensures Resolve(PinRegistry(), PinTranslations(), I18n.English,
                    ButtonTextAsWritten(PinTranslations(), I18n.English, PinButton())) == NoTarget
    ensures Resolve(PinRegistry(), PinTranslations(), I18n.English,
                    ButtonText(PinTranslations(), I18n.English, PinButton())) == TargetOf(PinButton())
  {
    var reg := PinRegistry();
    var tr := PinTranslations();
    var langs := FallbackLanguages(I18n.English);
    var b := PinButton();
    AsWrittenRepeatsEmoji();
    assert ButtonText(tr, I18n.Ukrainian, b) == "📍 Send location" by {
      assert I18n.Get(tr, I18n.Ukrainian, "menu.pin") == "📍 Send location";
      assert "📍" <= "📍 Send location";
    }
    MenuCandidatesUnregistered(reg, tr, SearchOrder[1..], langs);
    var c := Candidate("📍 Send location", TargetOf(b));
    assert LangCandidates(tr, b, langs[1..]) == [c];
    assert ButtonCandidates(tr, [b], langs) == [c, c] + ButtonCandidates(tr, [b][1..], langs);
    assert MenuCandidates(reg, tr, SearchOrder, langs) == [c, c];
    FirstMatchNone([c, c], "📍 📍 Send location");
  }

  /** `MenuBuilder`: the registry filled by `NewMenuRegistry` and the
      navigation history, both owned by the builder. */
  class MenuBuilder {
    const registry: MenuRegistry
    const navStack: NavigationStack

    /** `NewMenuBuilder`. */
    constructor ()
      ensures registry.menus == DeclaredMenus()
      ensures navStack.stacks == map[]
      ensures fresh(registry) && fresh(navStack)
    {
      registry := new MenuRegistry();
      navStack := new NavigationStack();
    }

    /** `Build`: the fallback keyboard for an unregistered menu, otherwise the
        visible buttons laid out per the menu's layout, plus the back row. */
    method Build(menuType: MenuType, s: Session) returns (kb: Keyboard)
      ensures kb == MenuKeyboard(registry.menus, menuType, s)
    {
      var menuDef := registry.Get(menuType);
      if menuDef.None? {
        kb := BuildFallbackMenu(s);
        return;
      }
      var visibleButtons := FilterVisibleButtons(menuDef.value.buttons, s);
      kb := BuildRows(s.translations, s.lang, visibleButtons, menuDef.value.layout);
      if menuDef.value.hasBack {
        kb := kb + [BackRow(s)];
      }
    }

    /** `ShowMenu`: builds the keyboard, records the menu in the user's history
        exactly when asked to, and picks the message shown with it. */
    method ShowMenu(menuType: MenuType, s: Session, messageKey: string, trackNavigation: bool)
      returns (message: string, kb: Keyboard)
      modifies navStack
      ensures kb == MenuKeyboard(registry.menus, menuType, s)
      ensures message == T(s, MessageKey(registry.menus, menuType, messageKey))
      ensures trackNavigation ==>
                navStack.stacks == old(navStack.stacks)[s.userId := old(navStack.History(s.userId)) + [menuType]]
      ensures !trackNavigation ==> navStack.stacks == old(navStack.stacks)
    {
      kb := Build(menuType, s);
      if trackNavigation {
        navStack.Push(s.userId, menuType);
      }
      if messageKey != "" {
        message := T(s, messageKey);
      } else {
        var menuDef := registry.Get(menuType);
        if menuDef.Some? && menuDef.value.titleKey != "" {
          message := T(s, menuDef.value.titleKey);
        } else {
          message := T(s, WelcomeBackKey);
        }
      }
    }

    /** `NavigateBack`: pops the current menu and shows the one below it (the
        main menu when none is left) without recording it again, so the
        history shrinks by one or stays empty. */
    method NavigateBack(s: Session) returns (shown: MenuType, message: string, kb: Keyboard)
      modifies navStack
      ensures shown == PreviousMenu(old(navStack.History(s.userId)))
      ensures kb == MenuKeyboard(registry.menus, shown, s)
      ensures message == T(s, MessageKey(registry.menus, shown, ""))
      ensures |old(navStack.History(s.userId))| == 0 ==> navStack.stacks == old(navStack.stacks)
      ensures |old(navStack.History(s.userId))| > 0 ==>
                navStack.stacks == old(navStack.stacks)[s.userId := Popped(old(navStack.History(s.userId)))]
    {
      var _ := navStack.Pop(s.userId);
      var prevMenu := navStack.Current(s.userId);
      if prevMenu == "" {
        prevMenu := MenuMain;
      }
      shown := prevMenu;
      message, kb := ShowMenu(prevMenu, s, "", false);
    }

    /** `ResolveHandlerFromButtonText`: searches the menus in `SearchOrder`,
        their buttons in order and, for each button, the user's language and
        then the fallback language; answers with the first button whose
        expected label equals the pressed text, or with nothing. */
    method ResolveHandlerFromButtonText(buttonText: string, s: Session) returns (handler: string, subMenu: MenuType)
      ensures Target(handler, subMenu) == Resolve(registry.menus, s.translations, s.lang, buttonText)
    {
      var lang := s.lang;
      var languages := [lang];
      if lang != I18n.English {
        languages := languages + [I18n.English];
      } else {
        languages := languages + [I18n.Ukrainian];
      }
      assert languages == FallbackLanguages(lang);
      var tr := s.translations;
      ghost var reg := registry.menus;
      ghost var goal := Resolve(reg, tr, lang, buttonText);
      var order := SearchOrder;
      assert order[0..] == order;
      for i := 0 to |order|
        invariant goal == FirstMatch(MenuCandidates(reg, tr, order[i..], languages), buttonText)
      {
        ghost var later := MenuCandidates(reg, tr, order[i + 1..], languages);
        MenuCandidatesStep(reg, tr, order, i, languages);
        var menuDef := registry.Get(order[i]);
        if menuDef.None? {
          assert [] + later == later;
          continue;
        }
        var found, target := MatchMenu(tr, menuDef.value.buttons, languages, buttonText, later);
        if found {
          return target.handler, target.subMenu;
        }
      }
      FirstMatchNone(MenuCandidates(reg, tr, order[|order|..], languages), buttonText);
      return "", "";
    }
  }

  /** The button loop of `ResolveHandlerFromButtonText` over one menu: the
      search either ends in this menu, at the target found, or goes on with
      the candidates `later`. */
  method MatchMenu(tr: I18n.Translations, buttons: seq<MenuButton>, languages: seq<string>, buttonText: string,
                   ghost later: seq<Candidate>)
    returns (found: bool, target: Target)
    ensures found ==> FirstMatch(ButtonCandidates(tr, buttons, languages) + later, buttonText) == target
    ensures !found ==> FirstMatch(ButtonCandidates(tr, buttons, languages) + later, buttonText) == FirstMatch(later, buttonText)
  {
    ghost var goal := FirstMatch(ButtonCandidates(tr, buttons, languages) + later, buttonText);
    assert buttons[0..] == buttons;
    for j := 0 to |buttons|
      invariant goal == FirstMatch(ButtonCandidates(tr, buttons[j..], languages) + later, buttonText)
    {
      var btn := buttons[j];
      ghost var laterButtons := ButtonCandidates(tr, buttons[j + 1..], languages) + later;
      ButtonCandidatesStep(tr, buttons, j, languages, later);
      var hit := MatchButton(tr, btn, languages, buttonText, laterButtons);
      if hit {
        return true, TargetOf(btn);
      }
    }
    assert ButtonCandidates(tr, buttons[|buttons|..], languages) == [];
    assert [] + later == later;
    return false, NoTarget;
  }

  /** The language loop of `ResolveHandlerFromButtonText` for one button: the
      label expected in each language, the emoji added when the translation
      lacks it. The search ends at this button exactly when one of them is the
      pressed text; otherwise it goes on with the candidates `rest`. */
  method MatchButton(tr: I18n.Translations, btn: MenuButton, languages: seq<string>, buttonText: string,
                     ghost rest: seq<Candidate>)
    returns (found: bool)
    ensures found ==> FirstMatch(LangCandidates(tr, btn, languages) + rest, buttonText) == TargetOf(btn)
    ensures !found ==> FirstMatch(LangCandidates(tr, btn, languages) + rest, buttonText) == FirstMatch(rest, buttonText)
  {
    ghost var goal := FirstMatch(LangCandidates(tr, btn, languages) + rest, buttonText);
    assert languages[0..] == languages;
    for k := 0 to |languages|
      invariant goal == FirstMatch(LangCandidates(tr, btn, languages[k..]) + rest, buttonText)
    {
      var expectedText := I18n.Get(tr, languages[k], btn.textKey);
      if btn.emoji != "" && !(btn.emoji <= expectedText) {
        expectedText := btn.emoji + " " + expectedText;
      }
      LangCandidatesStep(tr, btn, languages, k, rest);
      FirstMatchCons(Candidate(ButtonText(tr, languages[k], btn), TargetOf(btn)),
                     LangCandidates(tr, btn, languages[k + 1..]) + rest, buttonText);
      if buttonText == expectedText {
        return true;
      }
    }
    assert languages[|languages|..] == [];
    assert [] + rest == rest;
    return false;
  }

  /** The last `buildFallbackMenu` keyboard: the back button alone. */
  method BuildFallbackMenu(s: Session) returns (kb: Keyboard)
    ensures |kb| == 1 && kb[0] == [TextButton(T(s, BackKey))]
  {
    kb := [BackRow(s)];
  }

  lemma {:induction false} MenuCandidatesStep(reg: Registry, tr: I18n.Translations, order: seq<MenuType>, i: nat, langs: seq<string>)
    requires i < |order|
    ensures MenuCandidates(reg, tr, order[i..], langs) ==
            (if order[i] in reg then ButtonCandidates(tr, reg[order[i]].buttons, langs) else []) +
            MenuCandidates(reg, tr, order[i + 1..], langs)
  {
    assert order[i..][1..] == order[i + 1..];
  }

  lemma {:induction false} ButtonCandidatesStep(tr: I18n.Translations, bs: seq<MenuButton>, j: nat, langs: seq<string>,
                                                later: seq<Candidate>)
    requires j < |bs|
    ensures ButtonCandidates(tr, bs[j..], langs) + later ==
            LangCandidates(tr, bs[j], langs) + (ButtonCandidates(tr, bs[j + 1..], langs) + later)
  {
    assert bs[j..][1..] == bs[j + 1..];
  }

  lemma {:induction false} LangCandidatesStep(tr: I18n.Translations, b: MenuButton, langs: seq<string>, k: nat,
                                              later: seq<Candidate>)
    requires k < |langs|
    ensures var c := Candidate(ButtonText(tr, langs[k], b), TargetOf(b));
            LangCandidates(tr, b, langs[k..]) + later == [c] + (LangCandidates(tr, b, langs[k + 1..]) + later)
  {
    assert langs[k..][1..] == langs[k + 1..];
  }

  lemma {:induction false} FirstMatchCons(c: Candidate, rest: seq<Candidate>, text: string)
    ensures FirstMatch([c] + rest, text) == if c.text == text then c.target else FirstMatch(rest, text)
  {
    assert ([c] + rest)[1..] == rest;
  }

  // ---------------------------------------------------------------------
  // The keyboards of the declared menus

  /** A layout of ones places one button per row, as many as it has entries. */
  lemma {:induction false} LayoutRowsOnes(tr: I18n.Translations, lang: string, bs: seq<MenuButton>, layout: seq<nat>)
    requires forall j :: 0 <= j < |layout| ==> layout[j] == 1
    ensures var m := if |bs| < |layout| then |bs| else |layout|;
            var rows := LayoutRows(tr, lang, bs, layout);
            Consumed(|bs|, layout) == m && |rows| == m &&
            forall k :: 0 <= k < m ==> rows[k] == [RenderButton(tr, lang, bs[k], true)]
    decreases |layout|
  {
    if |layout| > 0 && |bs| > 0 {
      var tail := bs[1..];
      LayoutRowsOnes(tr, lang, tail, layout[1..]);
      assert RowTake(layout[0], |bs|) == 1;
      ConsumedUnfold(bs, layout, 1, tail);
      LayoutUnfold(tr, lang, bs, layout);
      var head := [RenderButton(tr, lang, bs[0], true)];
      assert bs[..1] == [] + [bs[0]];
      assert RenderRow(tr, lang, bs[..1], true) == head;
      OnesCons(tr, lang, bs, LayoutRows(tr, lang, tail, layout[1..]), LayoutRows(tr, lang, bs, layout));
    }
  }

  /** One single-button row in front of rows showing the later buttons one
      per row. */
  lemma {:induction false} OnesCons(tr: I18n.Translations, lang: string, bs: seq<MenuButton>, rest: Keyboard, rows: Keyboard)
    requires |bs| > 0 && |rest| < |bs|
    requires rows == [[RenderButton(tr, lang, bs[0], true)]] + rest
    requires forall k :: 0 <= k < |rest| ==> rest[k] == [RenderButton(tr, lang, bs[1..][k], true)]
    ensures forall k :: 0 <= k < |rows| ==> rows[k] == [RenderButton(tr, lang, bs[k], true)]
  {
    forall k | 1 <= k < |rows|
      ensures rows[k] == [RenderButton(tr, lang, bs[k], true)]
    {
      assert rows[k] == rest[k - 1];
      assert bs[1..][k - 1] == bs[k];
    }
  }

  /** With a layout of ones and no location button, every button ends up in
      a text-button row of its own, in order. */
  lemma {:induction false} OnesKeyboardRows(tr: I18n.Translations, lang: string, bs: seq<MenuButton>, layout: seq<nat>)
    requires forall j :: 0 <= j < |layout| ==> layout[j] == 1
    requires forall k :: 0 <= k < |bs| ==> bs[k].textKey != LocationKey
    ensures var rows := KeyboardRows(tr, lang, bs, layout);
            |rows| == |bs| && forall k :: 0 <= k < |bs| ==> rows[k] == [TextButton(ButtonTextAsWritten(tr, lang, bs[k]))]
  {
    LayoutRowsOnes(tr, lang, bs, layout);
    var c := Consumed(|bs|, layout);
    var placed := LayoutRows(tr, lang, bs, layout);
    var rest := OverflowRows(tr, lang, bs[c..]);
    OverflowRowsSingle(tr, lang, bs[c..]);
    var rows := KeyboardRows(tr, lang, bs, layout);
    assert rows == placed + rest;
    forall k | 0 <= k < |bs|
      ensures rows[k] == [TextButton(ButtonTextAsWritten(tr, lang, bs[k]))]
    {
      if k < c {
        assert rows[k] == placed[k];
      } else {
        assert rows[k] == rest[k - c];
        assert bs[c..][k - c] == bs[k];
      }
    }
  }

  /** The keyboard of a registered menu whose buttons are all visible, whose
      layout is all ones and which has no location button: one row per
      button, then the back row when the menu has one. */
  lemma {:induction false} OnesMenuKeyboard(reg: Registry, m: MenuType, s: Session, v: seq<MenuButton>)
    requires m in reg && v == VisibleButtons(reg[m].buttons, s)
    requires forall j :: 0 <= j < |reg[m].layout| ==> reg[m].layout[j] == 1
    requires forall k :: 0 <= k < |v| ==> v[k].textKey != LocationKey
    ensures var kb := MenuKeyboard(reg, m, s);
            |kb| == |v| + (if reg[m].hasBack then 1 else 0) &&
            (forall k :: 0 <= k < |v| ==> kb[k] == [TextButton(ButtonTextAsWritten(s.translations, s.lang, v[k]))]) &&
            (reg[m].hasBack ==> kb[|kb| - 1] == BackRow(s))
  {
    var rows := KeyboardRows(s.translations, s.lang, v, reg[m].layout);
    OnesKeyboardRows(s.translations, s.lang, v, reg[m].layout);
    var kb := MenuKeyboard(reg, m, s);
    assert kb == rows + (if reg[m].hasBack then [BackRow(s)] else []);
    forall k | 0 <= k < |v|
      ensures kb[k] == [TextButton(ButtonTextAsWritten(s.translations, s.lang, v[k]))]
    {
      assert kb[k] == rows[k];
    }
  }

  /** The main and "more" menus lay out one button per row and hold no
      location button. */
  lemma {:induction false} OnesWithoutLocation(d: MenuDefinition)
    requires d == MainMenu() || d == MoreMenu()
    ensures forall j :: 0 <= j < |d.layout| ==> d.layout[j] == 1
    ensures forall k :: 0 <= k < |d.buttons| ==> d.buttons[k].textKey != LocationKey
  {
  }

  /** The main menu has four buttons and a layout for two rows: the first two
      are placed by the layout, the other two become one row each, and there
      is no back row. */
  lemma {:induction false} MainMenuKeyboard(s: Session)
    ensures var kb := MenuKeyboard(DeclaredMenus(), MenuMain, s);
            var bs := MainMenu().buttons;
            |kb| == 4 && forall k :: 0 <= k < 4 ==> kb[k] == [TextButton(ButtonTextAsWritten(s.translations, s.lang, bs[k]))]
  {
    var reg := DeclaredMenus();
    var d := MainMenu();
    var bs := d.buttons;
    assert reg[MenuMain] == d;
    OnesWithoutLocation(d);
    VisibleButtonsKeepsAll(bs, s);
    OnesMenuKeyboard(reg, MenuMain, s, bs);
  }

  /** The main menu declares four buttons but its layout `[1, 1]` places only
      two of them; the other two overflow into rows of their own. */
  lemma {:induction false} MainMenuOverflows()
    ensures var d := MainMenu();
            |d.buttons| == 4 && d.layout == [1, 1] &&
            Consumed(|d.buttons|, d.layout) == 2 &&
            |d.buttons| - Consumed(|d.buttons|, d.layout) == 2
  {
    var d := MainMenu();
    assert d.layout[1..] == [1];
    assert Consumed(3, [1]) == 1 by {
      assert [1][1..] == [];
    }
  }

  /** Of the "more" menu's buttons, the admin-panel one is visible exactly to a
      user whose admin lookup succeeds with true. */
  lemma {:induction false} MoreMenuVisible(s: Session)
    ensures var bs := MoreMenu().buttons;
            VisibleButtons(bs, s) == [bs[0], bs[1]] + (if IsAdminCheck(s.isAdmin, s.userId) then [bs[2]] else [])
  {
    var bs := MoreMenu().buttons;
    assert bs == [bs[0], bs[1]] + [bs[2]];
    VisibleButtonsAppend([bs[0], bs[1]], [bs[2]], s);
    VisibleButtonsKeepsAll([bs[0], bs[1]], s);
    assert VisibleButtons([bs[2]], s) == if IsAdminCheck(s.isAdmin, s.userId) then [bs[2]] else [] by {
      assert [bs[2]][..0] == [];
    }
  }

  /** The "more" menu shows its admin-panel row only to such a user; everyone
      gets the language row, the report row and, last, the back row. */
  lemma {:induction false} MoreMenuKeyboard(s: Session)
    ensures var kb := MenuKeyboard(DeclaredMenus(), MenuMore, s);
            var bs := MoreMenu().buttons;
            var admin := IsAdminCheck(s.isAdmin, s.userId);
            |kb| == (if admin then 4 else 3) &&
            kb[0] == [TextButton(ButtonTextAsWritten(s.translations, s.lang, bs[0]))] &&
            kb[1] == [TextButton(ButtonTextAsWritten(s.translations, s.lang, bs[1]))] &&
            (admin ==> kb[2] == [TextButton(ButtonTextAsWritten(s.translations, s.lang, bs[2]))]) &&
            kb[|kb| - 1] == BackRow(s)
  {
    var reg := DeclaredMenus();
    var d := MoreMenu();
    assert reg[MenuMore] == d;
    MoreMenuVisible(s);
    OnesWithoutLocation(d);
    ThreeButtonKeyboard(reg, MenuMore, s, IsAdminCheck(s.isAdmin, s.userId));
  }

  /** A registered menu with a back row, three buttons laid out one per row,
      no location button and only its third button hidden from some users:
      two or three button rows, then the back row. */
  lemma {:induction false} ThreeButtonKeyboard(reg: Registry, m: MenuType, s: Session, shown: bool)
    requires m in reg && reg[m].hasBack && |reg[m].buttons| == 3
    requires forall j :: 0 <= j < |reg[m].layout| ==> reg[m].layout[j] == 1
    requires forall k :: 0 <= k < |reg[m].buttons| ==> reg[m].buttons[k].textKey != LocationKey
    requires var bs := reg[m].buttons;
             VisibleButtons(bs, s) == [bs[0], bs[1]] + (if shown then [bs[2]] else [])
    ensures var kb := MenuKeyboard(reg, m, s);
            var bs := reg[m].buttons;
            |kb| == (if shown then 4 else 3) &&
            kb[0] == [TextButton(ButtonTextAsWritten(s.translations, s.lang, bs[0]))] &&
            kb[1] == [TextButton(ButtonTextAsWritten(s.translations, s.lang, bs[1]))] &&
            (shown ==> kb[2] == [TextButton(ButtonTextAsWritten(s.translations, s.lang, bs[2]))]) &&
            kb[|kb| - 1] == BackRow(s)
  {
    var bs := reg[m].buttons;
    var v := VisibleButtons(bs, s);
    if shown {
      assert v == bs;
    } else {
      assert v == bs[..2];
    }
    OnesMenuKeyboard(reg, m, s, v);
  }

  /** The near-tasks menu asks for the user's location: its one button
      becomes a location button, followed by the back row. */
  lemma {:induction false} NearTasksKeyboard(s: Session)
    ensures MenuKeyboard(DeclaredMenus(), MenuNearTasks, s) ==
              [[LocationButton(T(s, LocationKey))], BackRow(s)]
  {
    var tr, lang := s.translations, s.lang;
    var bs := NearTasksMenu().buttons;
    assert DeclaredMenus()[MenuNearTasks] == NearTasksMenu();
    VisibleButtonsKeepsAll(bs, s);
    LayoutRowsOnes(tr, lang, bs, [1]);
    var kb := MenuKeyboard(DeclaredMenus(), MenuNearTasks, s);
    assert kb == LayoutRows(tr, lang, bs, [1]) + OverflowRows(tr, lang, bs[1..]) + [BackRow(s)];
    assert bs[1..] == [];
  }
}
