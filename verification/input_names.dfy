/**
 * Resolving input names: the collected (code, name) pairs are mapped onto the
 * table of known inputs, and display names are the known inputs' default
 * meanings overridden by non-blank custom names.
 */
module InputNames {
  import opened Wrappers
  import opened PyStr
  import opened RenameReply

  /** A known input: its protocol code and its factory default meaning. */
  datatype InputSource = InputSource(code: string, meaning: string)

  /**
   * The known inputs, in enumeration order. The members an enumeration
   * iterates over have distinct values (a repeated value is an alias of the
   * first member), so no two entries share a code.
   */
  predicate DistinctCodes(table: seq<InputSource>) {
    forall i, j :: 0 <= i < j < |table| ==> table[i].code != table[j].code
  }

  /** The set of known inputs. */
  function Members(table: seq<InputSource>): set<InputSource> {
    set s | s in table
  }

  /**
   * Looking up the known input with a given code: the member with that code,
   * or None where the enumeration would reject the value.
   */
  function FromCode(table: seq<InputSource>, code: string): (r: Option<InputSource>)
    ensures r.Some? ==> r.value in table && r.value.code == code
    ensures r.None? ==> forall s :: s in table ==> s.code != code
  {
    if table == [] then None
    else if table[0].code == code then Some(table[0])
    else FromCode(table[1..], code)
  }

  /** With distinct codes, a member's code leads back to that member. */
  lemma FromCodeOfMember(table: seq<InputSource>, s: InputSource)
    requires DistinctCodes(table) && s in table
    ensures FromCode(table, s.code) == Some(s)
  {
  }

  /** The custom names per known input: the collected name of its code, for the inputs whose code was collected. */
  function CustomNamesOf(table: seq<InputSource>, received: map<string, string>): (custom: map<InputSource, string>) {
    map s | s in table && s.code in received :: received[s.code]
  }

  /**
   * The loop that translates every collected code into a known input,
   * keeping its name, and drops codes that name no known input.
   */
  method MapToInputSources(table: seq<InputSource>, received: map<string, string>)
    returns (custom: map<InputSource, string>)
    requires DistinctCodes(table)
    ensures custom == CustomNamesOf(table, received)
  {
    custom := map[];
    var pending := received.Keys;
    while pending != {}
      invariant pending <= received.Keys
      invariant custom == CustomNamesOf(table, received - pending)
      decreases pending
    {
      var inputId :| inputId in pending;
      var done := received - pending;
      match FromCode(table, inputId) {
        case Some(source) =>
          forall s | s in table && s.code == inputId ensures s == source {
            FromCodeOfMember(table, s);
          }
          custom := custom[source := received[inputId]];
        case None =>
      }
      pending := pending - {inputId};
      assert received - pending == done[inputId := received[inputId]];
    }
    assert received - pending == received;
  }

  /**
   * Every key of the custom names is a known input whose code was collected,
   * with the collected name; every known input whose code was collected is a key.
   */
  lemma CustomNamesAreKnownInputs(table: seq<InputSource>, received: map<string, string>)
    ensures forall s :: s in CustomNamesOf(table, received) <==> s in table && s.code in received
    ensures forall s :: s in CustomNamesOf(table, received) ==> CustomNamesOf(table, received)[s] == received[s.code]
  {
  }

  /** A collected code that names no known input leaves no trace in the custom names. */
  lemma UnknownCodeDropped(table: seq<InputSource>, received: map<string, string>, code: string)
    requires FromCode(table, code).None?
    ensures forall s :: s in CustomNamesOf(table, received) ==> s.code != code
  {
  }

  /**
   * The name shown for one input: its custom name when it has one that is not
   * blank (its stripped form is non-empty, see `StripEnds`), else its default meaning.
   */
  function DisplayName(s: InputSource, custom: map<InputSource, string>): (name: string) {
    if s in custom && !AllSpace(custom[s]) then custom[s] else s.meaning
  }

  /**
   * The display names: every known input seeded with its default meaning,
   * then every custom name that is not blank written over its entry.
   */
  function DisplayNamesOf(table: seq<InputSource>, custom: map<InputSource, string>): (display: map<InputSource, string>) {
    map s | s in Members(table) + custom.Keys && (s in table || !AllSpace(custom[s])) :: DisplayName(s, custom)
  }

  /** The seeding comprehension followed by the override loop. */
  method DisplayNames(table: seq<InputSource>, custom: map<InputSource, string>)
    returns (display: map<InputSource, string>)
    ensures display == DisplayNamesOf(table, custom)
  {
    display := map s | s in table :: s.meaning;
    var pending := custom.Keys;
    while pending != {}
      invariant pending <= custom.Keys
      invariant display == DisplayNamesOf(table, custom - pending)
      decreases pending
    {
      var source :| source in pending;
      var customName := custom[source];
      OverrideStep(table, custom - pending, source, customName);
      StripEnds(customName);
      if Strip(customName) != "" {
        display := display[source := customName];
      }
      assert custom - (pending - {source}) == (custom - pending)[source := customName];
      pending := pending - {source};
    }
    assert custom - pending == custom;
  }

  /** One turn of the override loop: a non-blank name is written over its input's entry, a blank one is skipped. */
  lemma OverrideStep(table: seq<InputSource>, done: map<InputSource, string>, source: InputSource, name: string)
    requires source !in done
    ensures DisplayNamesOf(table, done[source := name]) ==
            if !AllSpace(name) then DisplayNamesOf(table, done)[source := name] else DisplayNamesOf(table, done)
  {
    var before, after := DisplayNamesOf(table, done), DisplayNamesOf(table, done[source := name]);
    var expected := if !AllSpace(name) then before[source := name] else before;
    assert after.Keys == expected.Keys;
    forall s | s in after ensures after[s] == expected[s] {
      assert DisplayName(s, done[source := name]) == if s == source && !AllSpace(name) then name else DisplayName(s, done);
    }
  }

  /** When every custom name belongs to a known input, there is exactly one display name per known input. */
  lemma DisplayNamesCoverKnownInputs(table: seq<InputSource>, custom: map<InputSource, string>)
    requires custom.Keys <= Members(table)
    ensures DisplayNamesOf(table, custom).Keys == Members(table)
  {
  }

  /**
   * A known input shows its custom name exactly when it has one with a
   * non-whitespace character in it, and its default meaning otherwise.
   */
  lemma DisplayNamePrefersCustom(table: seq<InputSource>, custom: map<InputSource, string>, s: InputSource)
    requires s in table
    ensures s in DisplayNamesOf(table, custom)
    ensures s in custom && !AllSpace(custom[s]) ==> DisplayNamesOf(table, custom)[s] == custom[s]
    ensures s !in custom || AllSpace(custom[s]) ==> DisplayNamesOf(table, custom)[s] == s.meaning
  {
  }

  /** With no custom names the display names are the default meanings, exactly. */
  lemma NoCustomNamesGivesDefaults(table: seq<InputSource>)
    ensures DisplayNamesOf(table, map[]) == map s | s in table :: s.meaning
  {
  }

  /**
   * The custom-name query. The replies that reach the update callback before
   * the mapping loop starts are `replies`, in arrival order; `connected` says whether
   * the connection could be created and opened. A failure there is caught and
   * leaves the result empty.
   */
  method QueryCustomInputNames(table: seq<InputSource>, replies: seq<Message>, connected: bool)
    returns (custom: map<InputSource, string>)
    requires DistinctCodes(table)
    ensures custom == (if connected then CustomNamesOf(table, Received(replies)) else map[])
    ensures forall s :: s in custom ==> s in table && WellFormedName(custom[s])
  {
    custom := map[];
    var collector := new RenameCollector();
    if connected {
      for k := 0 to |replies|
        invariant collector.Valid()
        invariant collector.receivedNames == Received(replies[..k])
      {
        assert replies[..k + 1][..k] == replies[..k];
        collector.OnUpdate(replies[k]);
      }
      assert replies[..|replies|] == replies;
      custom := MapToInputSources(table, collector.receivedNames);
    }
  }

  /**
   * The display-name resolution: one entry per known input, the name last
   * received for its code when the query ran, else its default meaning.
   */
  method GetInputDisplayNames(table: seq<InputSource>, replies: seq<Message>, connected: bool)
    returns (display: map<InputSource, string>)
    requires DistinctCodes(table)
    ensures display.Keys == Members(table)
    ensures forall s :: s in display ==>
              display[s] == if connected && s.code in Received(replies) then Received(replies)[s.code] else s.meaning
  {
    var custom := QueryCustomInputNames(table, replies, connected);
    display := DisplayNames(table, custom);
    DisplayOfWellFormedNames(table, custom);
  }

  /**
   * When every custom name belongs to a known input and is well formed, as the
   * query guarantees, the blank check never discards one: each known input
   * shows its custom name if it has one and its default meaning otherwise.
   */
  lemma DisplayOfWellFormedNames(table: seq<InputSource>, custom: map<InputSource, string>)
    requires forall s :: s in custom ==> s in table && WellFormedName(custom[s])
    ensures DisplayNamesOf(table, custom).Keys == Members(table)
    ensures forall s :: s in table ==> DisplayNamesOf(table, custom)[s] == if s in custom then custom[s] else s.meaning
  {
    forall s | s in custom ensures !AllSpace(custom[s]) {
      WellFormedNameEnds(custom[s]);
    }
  }

  /** A reply "01Living Room  " names input "01" "Living Room": trimmed, case kept. */
  lemma LivingRoomReply()
    ensures ParseRename([Str("main"), Str(RENAME_COMMAND), Str("01Living Room  ")]) == Some(Rename("01", "Living Room"))
  {
    LivingRoomText();
    ParseOfPaddedName(Str("main"), "01", "", "Living Room", "  ", []);
  }

  lemma LivingRoomText()
    ensures WellFormedName("Living Room") && AllSpace("  ")
    ensures "01" + "" + "Living Room" + "  " == "01Living Room  "
  {
  }

  /**
   * Known inputs "00" (VCR/DVR) and "01" (CBL/SAT) and one reply renaming
   * "01" to "Den TV": the display names are VCR/DVR and Den TV.
   */
  lemma DenTvScenario()
    ensures var vcr, cbl := InputSource("00", "VCR/DVR"), InputSource("01", "CBL/SAT");
            var replies := [[Str("main"), Str(RENAME_COMMAND), Str("01Den TV")]];
            DisplayNamesOf([vcr, cbl], CustomNamesOf([vcr, cbl], Received(replies))) == map[vcr := "VCR/DVR", cbl := "Den TV"]
  {
    var vcr, cbl := InputSource("00", "VCR/DVR"), InputSource("01", "CBL/SAT");
    DenTvReceived();
    DenTvCustom();
    DenTvDisplay();
  }

  lemma DenTvDisplay()
    ensures var vcr, cbl := InputSource("00", "VCR/DVR"), InputSource("01", "CBL/SAT");
            DisplayNamesOf([vcr, cbl], map[cbl := "Den TV"]) == map[vcr := "VCR/DVR", cbl := "Den TV"]
  {
    var vcr, cbl := InputSource("00", "VCR/DVR"), InputSource("01", "CBL/SAT");
    DenTvText();
    DisplayOfWellFormedNames([vcr, cbl], map[cbl := "Den TV"]);
    assert Members([vcr, cbl]) == {vcr, cbl};
  }

  lemma DenTvReceived()
    ensures Received([[Str("main"), Str(RENAME_COMMAND), Str("01Den TV")]]) == map["01" := "Den TV"]
  {
    var reply := [Str("main"), Str(RENAME_COMMAND), Str("01Den TV")];
    DenTvReply();
    assert [reply][..0] == [];
  }

  lemma DenTvCustom()
    ensures var vcr, cbl := InputSource("00", "VCR/DVR"), InputSource("01", "CBL/SAT");
            CustomNamesOf([vcr, cbl], map["01" := "Den TV"]) == map[cbl := "Den TV"]
  {
  }

  lemma DenTvReply()
    ensures ParseRename([Str("main"), Str(RENAME_COMMAND), Str("01Den TV")]) == Some(Rename("01", "Den TV"))
  {
    DenTvText();
    assert "01" + "" + "Den TV" + "" == "01Den TV";
    ParseOfPaddedName(Str("main"), "01", "", "Den TV", "", []);
  }

  lemma DenTvText()
    ensures WellFormedName("Den TV") && !AllSpace("Den TV")
  {
  }
}
