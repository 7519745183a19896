/** The command line of Kernel/terminal.h with the string routines of Kernel/string.h. */
module Shell {
  import opened Machine

  // ---------------------------------------------------------------- strings

  /** The characters before the terminator. */
  function CString(str: seq<uint8>): (s: seq<uint8>)
    requires 0 in str
    ensures |s| < |str| && s <= str && str[|s|] == 0 && 0 !in s
  {
    if str[0] == 0 then [] else [str[0]] + CString(str[1..])
  }

  lemma {:induction false} CStringIs(str: seq<uint8>, s: seq<uint8>)
    requires |s| < |str| && s <= str && str[|s|] == 0 && 0 !in s
    ensures CString(str) == s
  {}

  method StrLen(str: seq<uint8>) returns (length: nat)
    requires 0 in str
    ensures length == |CString(str)|
  {
    length := 0;
    while str[length] != 0
      invariant 0 <= length < |str| && 0 !in str[..length]
      invariant 0 in str[length..]
      decreases |str| - length
    {
      length := length + 1;
    }
    CStringIs(str, str[..length]);
  }

  method StrCmp(str1: seq<uint8>, str2: seq<uint8>) returns (r: uint8)
    requires 0 in str1 && 0 in str2
    ensures r == 0 || r == 1
    ensures r == 0 <==> CString(str1) == CString(str2)
  {
    var length1 := StrLen(str1);
    var length2 := StrLen(str2);
    if length1 != length2 {
      return 1;
    }
    var i := 0;
    while i < length1
      invariant 0 <= i <= length1
      invariant str1[..i] == str2[..i]
    {
      if str1[i] != str2[i] {
        assert CString(str1)[i] == str1[i] && CString(str2)[i] == str2[i];
        return 1;
      }
      i := i + 1;
    }
    assert CString(str1) == str1[..length1] && CString(str2) == str2[..length1];
    return 0;
  }

  // ---------------------------------------------------------------- commands

  datatype Command = Mem | Status | Init | Reboot | Clear | Unknown

  const MEM: seq<uint8> := [109, 101, 109]
  const STATUS: seq<uint8> := [115, 116, 97, 116, 117, 115]
  const INIT: seq<uint8> := [105, 110, 105, 116]
  const REBOOT: seq<uint8> := [114, 101, 98, 111, 111, 116]
  const CLEAR: seq<uint8> := [99, 108, 101, 97, 114]

  /** The command that a line spells. */
  function Spelled(line: seq<uint8>): Command {
    if line == MEM then Mem
    else if line == STATUS then Status
    else if line == INIT then Init
    else if line == REBOOT then Reboot
    else if line == CLEAR then Clear
    else Unknown
  }

  /** The five words, letter by letter, and what everything else is. */
  lemma SpelledWords(line: seq<uint8>)
    ensures Spelled(line).Mem? <==> line == Bytes("mem")
    ensures Spelled(line).Status? <==> line == Bytes("status")
    ensures Spelled(line).Init? <==> line == Bytes("init")
    ensures Spelled(line).Reboot? <==> line == Bytes("reboot")
    ensures Spelled(line).Clear? <==> line == Bytes("clear")
    ensures Spelled(line).Unknown?
      <==> line !in {Bytes("mem"), Bytes("status"), Bytes("init"), Bytes("reboot"), Bytes("clear")}
  {
    assert Bytes("mem") == MEM && Bytes("status") == STATUS && Bytes("init") == INIT;
    assert Bytes("reboot") == REBOOT && Bytes("clear") == CLEAR;
    assert |MEM| == 3 && |STATUS| == 6 && |INIT| == 4 && |REBOOT| == 6 && |CLEAR| == 5 && STATUS[0] != REBOOT[0];
  }

  /** The character codes of a string. */
  function Bytes(s: string): (b: seq<uint8>)
    ensures |b| == |s|
  {
    seq(|s|, i requires 0 <= i < |s| => s[i] as int % 256)
  }

  // ---------------------------------------------------------------- key streams

  const UP: uint8 := 0x48
  const ENTER: uint8 := 0x1C
  const BUFFER_SIZE := 25

  predicate IsLetter(key: uint8) { 97 <= key <= 122 }

  function Letters(keys: seq<uint8>): seq<uint8> {
    if |keys| == 0 then []
    else Letters(keys[..|keys| - 1]) + if IsLetter(keys[|keys| - 1]) then [keys[|keys| - 1]] else []
  }

  /** The keys since the last Enter. */
  function LastLine(keys: seq<uint8>): seq<uint8> {
    if |keys| == 0 || keys[|keys| - 1] == ENTER then [] else LastLine(keys[..|keys| - 1]) + [keys[|keys| - 1]]
  }

  /** The lines that an Enter ended. */
  function EndedLines(keys: seq<uint8>): seq<seq<uint8>> {
    if |keys| == 0 then []
    else
      var before, key := keys[..|keys| - 1], keys[|keys| - 1];
      if key == ENTER then EndedLines(before) + [LastLine(before)] else EndedLines(before)
  }

  /** What one key does to the line, and the command that it fires. */
  function Step(line: seq<uint8>, key: uint8): (seq<uint8>, Option<Command>) {
    if key == ENTER then ([], Some(Spelled(line)))
    else if IsLetter(key) then (line + [key], None)
    else (line, None)
  }

  /** The keys by their codes: Enter, the letters, and all others. */
  lemma StepKeys(line: seq<uint8>, key: uint8)
    ensures key == 28 ==> Step(line, key) == ([], Some(Spelled(line)))
    ensures 'a' as int <= key <= 'z' as int ==> Step(line, key) == (line + [key], None)
    ensures key != 28 && !('a' as int <= key <= 'z' as int) ==> Step(line, key) == (line, None)
    ensures CanPress(line, key)
      <==> key != 72 && (key == 28 || 'a' as int <= key <= 'z' as int ==> |line| < 25)
  {}

  datatype Session = Session(line: seq<uint8>, fired: seq<Command>)

  function Press(s: Session, key: uint8): Session {
    var (line, fired) := Step(s.line, key);
    Session(line, s.fired + if fired.Some? then [fired.value] else [])
  }

  function Run(s: Session, keys: seq<uint8>): Session
    decreases |keys|
  {
    if |keys| == 0 then s else Run(Press(s, keys[0]), keys[1..])
  }

  lemma {:induction false} RunSnoc(s: Session, keys: seq<uint8>, key: uint8)
    ensures Run(s, keys + [key]) == Press(Run(s, keys), key)
    decreases |keys|
  {
    if |keys| > 0 {
      RunSnoc(Press(s, keys[0]), keys[1..], key);
      assert (keys + [key])[1..] == keys[1..] + [key];
    }
  }

  /** A line of letters and Enter, from any session: the line is taken up whole and its command comes last. */
  lemma {:induction false} RunLine(s: Session, letters: seq<uint8>)
    requires forall i | 0 <= i < |letters| :: 'a' as int <= letters[i] <= 'z' as int
    ensures Run(s, letters + [28]) == Session([], s.fired + [Spelled(s.line + letters)])
    decreases |letters|
  {
    if |letters| > 0 {
      StepKeys(s.line, letters[0]);
      RunLine(Press(s, letters[0]), letters[1..]);
      assert (letters + [28])[1..] == letters[1..] + [28];
      assert s.line + [letters[0]] + letters[1..] == s.line + letters;
      assert s.fired + [] == s.fired;
    } else {
      StepKeys(s.line, 28);
      assert letters + [28] == [28] && [28][1..] == [] && s.line + letters == s.line;
    }
  }

  function Commands(lines: seq<seq<uint8>>): seq<Command> {
    seq(|lines|, i requires 0 <= i < |lines| => Spelled(Letters(lines[i])))
  }

  lemma LettersSnoc(keys: seq<uint8>, key: uint8)
    ensures Letters(keys + [key]) == Letters(keys) + if IsLetter(key) then [key] else []
  {
    assert (keys + [key])[..|keys|] == keys;
  }

  lemma CommandsSnoc(lines: seq<seq<uint8>>, line: seq<uint8>)
    ensures Commands(lines + [line]) == Commands(lines) + [Spelled(Letters(line))]
  {}

  /** The line is the letters since the last Enter, and each Enter fires what its line's letters spell. */
  lemma {:induction false} RunSpells(keys: seq<uint8>)
    ensures Run(Session([], []), keys) == Session(Letters(LastLine(keys)), Commands(EndedLines(keys)))
    decreases |keys|
  {
    if |keys| > 0 {
      var before, key := keys[..|keys| - 1], keys[|keys| - 1];
      RunSpells(before);
      RunSnoc(Session([], []), before, key);
      assert before + [key] == keys;
      LettersSnoc(LastLine(before), key);
      CommandsSnoc(EndedLines(before), LastLine(before));
      hide Run, Spelled, IsLetter, Commands;
    }
  }

  // ---------------------------------------------------------------- streams that the buffer holds

  /** Keys that use the buffer: a letter is stored, and Enter has the line compared. */
  predicate Uses(key: uint8) { IsLetter(key) || key == ENTER }

  /** The key neither halts the machine nor leaves the buffer: a letter needs a place, Enter a terminator. */
  predicate CanPress(line: seq<uint8>, key: uint8) {
    key != UP && (Uses(key) ==> |line| < BUFFER_SIZE)
  }

  predicate CanRun(s: Session, keys: seq<uint8>)
    decreases |keys|
  {
    |keys| == 0 || (CanPress(s.line, keys[0]) && CanRun(Press(s, keys[0]), keys[1..]))
  }

  lemma {:induction false} CanRunSnoc(s: Session, keys: seq<uint8>, key: uint8)
    ensures CanRun(s, keys + [key]) <==> CanRun(s, keys) && CanPress(Run(s, keys).line, key)
    decreases |keys|
  {
    if |keys| > 0 {
      CanRunSnoc(Press(s, keys[0]), keys[1..], key);
      assert (keys + [key])[1..] == keys[1..] + [key];
    }
  }

  /** The letters since the last Enter, after the first `n` keys. */
  function LineAt(keys: seq<uint8>, n: nat): seq<uint8>
    requires n <= |keys|
  {
    Letters(LastLine(keys[..n]))
  }

  /** The terminal runs on a key stream exactly when it has no Up and no letter or Enter meets more than 24 letters. */
  lemma {:induction false} CanRunIff(keys: seq<uint8>)
    ensures CanRun(Session([], []), keys)
      <==> UP !in keys && forall n | 0 <= n < |keys| && Uses(keys[n]) :: |LineAt(keys, n)| < BUFFER_SIZE
    decreases |keys|
  {
    if |keys| > 0 {
      var k := |keys| - 1;
      var before := keys[..k];
      assert before + [keys[k]] == keys;
      CanRunIff(before);
      CanRunSnoc(Session([], []), before, keys[k]);
      forall n | 0 <= n < k ensures LineAt(keys, n) == LineAt(before, n) && keys[n] == before[n] {
        assert keys[..n] == before[..n];
      }
      LineOfRun(keys, k);
      hide LineAt, Letters, LastLine, Run, CanRun, Uses;
    }
  }

  lemma LineOfRun(keys: seq<uint8>, n: nat)
    requires n <= |keys|
    ensures LineAt(keys, n) == Run(Session([], []), keys[..n]).line
  {
    RunSpells(keys[..n]);
  }

  /** Between letters and Enters the line stays, so before an Enter no prefix is longer than 24 letters. */
  lemma {:induction false} PrefixFits(keys: seq<uint8>, n: nat)
    requires n <= |keys| && |keys| > 0 && keys[|keys| - 1] == ENTER
    requires forall m | 0 <= m < |keys| && Uses(keys[m]) :: |LineAt(keys, m)| < BUFFER_SIZE
    ensures |LineAt(keys, n)| < BUFFER_SIZE
    decreases |keys| - n
  {
    if n < |keys| && !Uses(keys[n]) {
      PrefixFits(keys, n + 1);
      assert keys[..n + 1][..n] == keys[..n];
      LettersSnoc(LastLine(keys[..n]), keys[n]);
    } else if n == |keys| {
      assert keys[..n] == keys;
    }
  }

  /** Up to an Enter: exactly when there is no Up and no prefix has more than 24 letters since its last Enter. */
  lemma EnteredRunIff(keys: seq<uint8>)
    requires |keys| > 0 && keys[|keys| - 1] == ENTER
    ensures CanRun(Session([], []), keys)
      <==> UP !in keys && forall n | 0 <= n <= |keys| :: |LineAt(keys, n)| < BUFFER_SIZE
  {
    CanRunIff(keys);
    if forall m | 0 <= m < |keys| && Uses(keys[m]) :: |LineAt(keys, m)| < BUFFER_SIZE {
      forall n | 0 <= n <= |keys| ensures |LineAt(keys, n)| < BUFFER_SIZE { PrefixFits(keys, n); }
    }
  }

  // ---------------------------------------------------------------- the code

  class CommandLine {
    const buffer: array<uint8>
    var length: uint32

    constructor ()
      ensures Valid() && fresh(buffer) && Line() == []
    {
      buffer := new uint8[BUFFER_SIZE](_ => 0);
      length := 0;
    }

    /** Letters, then zeros to the end. */
    ghost predicate Valid()
      reads this, buffer
    {
      && buffer.Length == BUFFER_SIZE && length <= BUFFER_SIZE
      && (forall i | 0 <= i < length :: IsLetter(buffer[i]))
      && (forall i | length <= i < BUFFER_SIZE :: buffer[i] == 0)
    }

    function Line(): seq<uint8>
      requires length <= buffer.Length
      reads this, buffer
    {
      buffer[..length]
    }

    /** The buffer holds a terminator exactly when the line has at most 24 letters. */
    lemma TerminatedIff()
      requires Valid()
      ensures 0 in buffer[..] <==> length < BUFFER_SIZE
    {
      if length < BUFFER_SIZE {
        assert buffer[..][length] == 0;
      }
    }

    lemma LineIsString()
      requires Valid() && length < BUFFER_SIZE
      ensures 0 in buffer[..] && CString(buffer[..]) == Line()
    {
      assert buffer[..][length] == 0;
      assert forall i | 0 <= i < length :: Line()[i] == buffer[i];
      CStringIs(buffer[..], Line());
    }

    /** The comparisons after Enter. */
    method Dispatch() returns (command: Command)
      requires Valid() && length < BUFFER_SIZE
      ensures command == Spelled(Line())
    {
      LineIsString();
      var str := buffer[..];
      var r := Matches(str, MEM);
      if r { return Mem; }
      r := Matches(str, STATUS);
      if r { return Status; }
      r := Matches(str, INIT);
      if r { return Init; }
      r := Matches(str, REBOOT);
      if r { return Reboot; }
      r := Matches(str, CLEAR);
      if r { return Clear; }
      return Unknown;
    }

    method Matches(str: seq<uint8>, name: seq<uint8>) returns (r: bool)
      requires 0 in str && 0 !in name
      ensures r <==> CString(str) == name
    {
      CStringIs(name + [0], name);
      var c := StrCmp(str, name + [0]);
      r := c == 0;
    }

    /** One round of the input loop. */
    method Key(input: uint8) returns (fired: Option<Command>)
      requires Valid() && CanPress(Line(), input)
      modifies this, buffer
      ensures Valid()
      ensures (Line(), fired) == Step(old(Line()), input)
    {
      fired := None;
      if !(input == ENTER) && 97 <= input <= 122 {
        buffer[length] := input;
        length := length + 1;
        assert Line() == old(Line()) + [input];
        return;
      }
      if input == ENTER {
        var command := Dispatch();
        fired := Some(command);
        var i := 0;
        while i < length
          modifies buffer
          invariant 0 <= i <= length
          invariant forall k | 0 <= k < i || length <= k < BUFFER_SIZE :: buffer[k] == 0
        {
          buffer[i] := 0;
          i := i + 1;
        }
        length := 0;
      }
    }

    /** The input loop, for the keys of a stream. */
    method Terminal(keys: seq<uint8>) returns (fired: seq<Command>)
      requires Valid() && Line() == [] && CanRun(Session([], []), keys)
      modifies this, buffer
      ensures Valid() && Line() == Letters(LastLine(keys)) && fired == Commands(EndedLines(keys))
    {
      fired := [];
      RunSpells(keys);
      hide Letters, LastLine, Commands, EndedLines, IsLetter;
      for n := 0 to |keys|
        invariant Valid() && CanRun(Session(Line(), fired), keys[n..])
        invariant Run(Session(Line(), fired), keys[n..]) == Run(Session([], []), keys)
      {
        assert keys[n..][0] == keys[n] && keys[n..][1..] == keys[n + 1..];
        var command := Key(keys[n]);
        fired := fired + if command.Some? then [command.value] else [];
      }
    }
  }
}
