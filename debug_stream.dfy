/**
 * quick::DebugStream: an output string stream that renders nested values
 * (containers, maps, pairs, enums) as an indented, bracketed text tree.
 *
 * The stream's state is its text so far and three layout controls: the
 * nesting `depth` (uint32_t), the `inline` flag (bool) and the number of
 * spaces per level `indent` (uint8_t). The datatype Stream below gives the
 * meaning of every operation as a function of that state; the class
 * DebugStream of module QuickDebugStreamObject (debug_stream_object.dfy)
 * performs the same operations in place.
 */
module QuickDebugStream {

  /** 2^32: uint32_t arithmetic wraps around modulo this. */
  const U32: nat := 0x1_0000_0000

  type u8 = x: int | 0 <= x < 0x100
  type u32 = x: int | 0 <= x < 0x1_0000_0000

  /** The message of the runtime_error thrown by BranchEnd. */
  const InvalidBranchEndMessage: string := "[quick::DebugStream]: Invalid BranchEnd"

  /** std::string(n, ' '). */
  function Spaces(n: nat): (r: string)
    ensures |r| == n && forall i | 0 <= i < n :: r[i] == ' '
  {
    seq(n, _ => ' ')
  }

  /**
   * depth*indentation_space: a uint32_t times a promoted uint8_t, computed in
   * 32-bit unsigned arithmetic; it is the plain product when that fits.
   */
  function Pad(depth: u32, indent: u8): (r: nat)
    ensures r < U32
    ensures depth * indent < U32 ==> r == depth * indent
  {
    (depth * indent) % U32
  }

  /** The decimal digit for d. */
  function Digit(d: nat): (r: char)
    requires d < 10
    ensures '0' <= r <= '9' && r as int - '0' as int == d
  {
    ('0' as int + d) as char
  }

  /** The value of a string of decimal digits, most significant first. */
  function DigitsValue(r: string): nat
    requires forall i | 0 <= i < |r| :: '0' <= r[i] <= '9'
    decreases |r|
  {
    if r == [] then 0 else 10 * DigitsValue(r[..|r| - 1]) + (r[|r| - 1] as int - '0' as int)
  }

  /** The value of a string of decimal digits after an optional '-'. */
  function SignedValue(r: string): int
    requires r != [] && forall i | 0 <= i < |r| :: '0' <= r[i] <= '9' || (i == 0 && r[i] == '-')
  {
    if r[0] == '-' then -(DigitsValue(r[1..]) as int) else DigitsValue(r)
  }

  /** The decimal rendering std::ostringstream gives to a non-negative integer. */
  function NaturalText(n: nat): (r: string)
    ensures |r| > 0 && forall i | 0 <= i < |r| :: '0' <= r[i] <= '9'
  {
    if n < 10 then [Digit(n)] else NaturalText(n / 10) + [Digit(n % 10)]
  }

  /** NaturalText(n) reads back as n, and starts with '0' only when n is 0. */
  lemma {:induction false} NaturalTextValue(n: nat)
    ensures DigitsValue(NaturalText(n)) == n
    ensures NaturalText(n)[0] == '0' <==> n == 0
    decreases n
  {
    if n >= 10 {
      NaturalTextValue(n / 10);
      var r := NaturalText(n);
      assert r[..|r| - 1] == NaturalText(n / 10);
    }
  }

  /** The decimal rendering std::ostringstream gives to an int32_t. */
  function DecimalText(n: int): (r: string)
    ensures |r| > 0 && '\n' !in r
    ensures r[0] == '-' <==> n < 0
    ensures forall i | 0 <= i < |r| :: '0' <= r[i] <= '9' || (i == 0 && r[i] == '-')
  {
    if n < 0 then "-" + NaturalText(-n) else NaturalText(n)
  }

  /** DecimalText(n) reads back as n, and its digits start with '0' only when n is 0. */
  lemma DecimalTextValue(n: int)
    ensures SignedValue(DecimalText(n)) == n
    ensures n < 0 ==> |DecimalText(n)| > 1 && DecimalText(n)[1] != '0'
    ensures n >= 0 ==> (DecimalText(n)[0] == '0' <==> n == 0)
  {
    if n < 0 {
      var d := NaturalText(-n);
      NaturalTextValue(-n);
      assert ("-" + d)[1..] == d;
    } else {
      NaturalTextValue(n);
    }
  }

  /** static_cast<int32_t>: the value modulo 2^32, read as a signed 32-bit integer. */
  function Int32(n: int): (r: int)
    ensures -0x8000_0000 <= r < 0x8000_0000
    ensures (r - n) % U32 == 0
  {
    (n + 0x8000_0000) % U32 - 0x8000_0000
  }

  /** The state of a DebugStream: its text so far and its layout controls. */
  datatype Stream = Stream(out: string, depth: u32, inline: bool, indent: u8) {

    /** Writing straight to the underlying std::ostringstream (BaseStream). */
    function Raw(text: string): (r: Stream)
      ensures r.out == out + text
      ensures r.depth == depth && r.inline == inline && r.indent == indent
    {
      this.(out := out + text)
    }

    /** TabSpace(): depth*indentation_space spaces. */
    function TabSpace(): (r: Stream)
      ensures r.depth == depth && r.inline == inline && r.indent == indent
      ensures out <= r.out && |r.out| == |out| + Pad(depth, indent)
      ensures forall i | |out| <= i < |r.out| :: r.out[i] == ' '
    {
      Raw(Spaces(Pad(depth, indent)))
    }

    /** operator<<(char): the character, and after a newline the indentation. */
    function PutChar(c: char): (r: Stream)
      ensures r.depth == depth && r.inline == inline && r.indent == indent
      ensures c != '\n' ==> r.out == out + [c]
      ensures c == '\n' ==> r.out == out + [c] + Spaces(Pad(depth, indent))
    {
      if c == '\n' then Raw([c]).TabSpace() else Raw([c])
    }

    /**
     * operator<<(const char*) and operator<<(const std::string&): the
     * characters one by one through operator<<(char).
     */
    function PutText(text: string): (r: Stream)
      ensures r.depth == depth && r.inline == inline && r.indent == indent
      ensures out <= r.out
      decreases |text|
    {
      if text == [] then this else PutText(text[..|text| - 1]).PutChar(text[|text| - 1])
    }

    /**
     * BranchStart(c): the character; outside inline mode also a newline, one
     * more level of depth (uint32_t increment) and the new indentation.
     */
    function BranchStart(c: char): (r: Stream)
      ensures r.inline == inline && r.indent == indent
      ensures r.depth == if inline then depth else (depth + 1) % U32
      ensures PutChar(c).out <= r.out
      ensures inline ==> r == PutChar(c)
    {
      var s := PutChar(c);
      if s.inline then s
      else s.Raw("\n").(depth := (s.depth + 1) % U32).TabSpace()
    }

    /**
     * BranchEnd(c): outside inline mode a newline, then the runtime_error if
     * depth is 0, else one level less and the indentation; then the character.
     */
    function BranchEnd(c: char): (r: Step)
      ensures r.Threw? <==> !inline && depth == 0
      ensures r.Threw? ==> r.st == Raw("\n")
      ensures r.st.inline == inline && r.st.indent == indent && out <= r.st.out
      ensures r.Ok? && !inline ==> r.st.depth == depth - 1
      ensures r.Ok? && inline ==> r.st == PutChar(c)
    {
      if inline then Ok(PutChar(c))
      else
        var s := Raw("\n");
        if s.depth == 0 then Threw(s)
        else Ok(s.(depth := s.depth - 1).TabSpace().PutChar(c))
    }
  }

  /** The initial state of a default-constructed DebugStream. */
  const Initial: Stream := Stream([], 0, false, 2)

  /**
   * Outcome of writing a value: the state reached, or the state in which a
   * runtime_error("[quick::DebugStream]: Invalid BranchEnd") left the stream.
   */
  datatype Step = Ok(st: Stream) | Threw(st: Stream)

  /**
   * The values the free operator<< overloads print. A Fundamental is a scalar
   * already rendered by std::ostringstream; Sequence stands for std::vector,
   * std::list, std::set and std::unordered_set, Mapping for std::map and
   * std::unordered_map, each in its iteration order.
   */
  datatype Value =
    | Fundamental(text: string)
    | Character(c: char)
    | Text(chars: string)
    | Enum(number: int)
    | Sequence(items: seq<Value>)
    | Mapping(entries: seq<Entry>)
    | Pair(first: Value, second: Value)

  datatype Entry = Entry(key: Value, value: Value)

  /**
   * How a map key is printed. AsWritten: is_inline is forced to true for the
   * key and set to false afterwards. Scoped: is_inline is set to true for the
   * key and restored afterwards by a ScopedInlineStruct (the intended
   * behaviour; a guard's destructor also runs when the key's output throws).
   */
  datatype KeyScope = AsWritten | Scoped

  /** Writing value v to a stream in state s. */
  function Render(s: Stream, v: Value, scope: KeyScope): (r: Step)
    ensures r.st.indent == s.indent
    decreases v, 1
  {
    match v
    case Fundamental(text) => Ok(s.Raw(text))
    case Character(c) => Ok(s.PutChar(c))
    case Text(chars) => Ok(s.PutText(chars))
    case Enum(number) => Ok(s.PutText("ENUM-").Raw(DecimalText(Int32(number))))
    case Sequence(items) =>
      if |items| == 0 then Ok(s.PutText("[]"))
      else
        (match RenderItems(s.BranchStart('['), items, scope, v)
         case Threw(t) => Threw(t)
         case Ok(t) => t.BranchEnd(']'))
    case Mapping(entries) =>
      if |entries| == 0 then Ok(s.PutText("{}"))
      else
        (match RenderEntries(s.BranchStart('{'), entries, scope, v)
         case Threw(t) => Threw(t)
         case Ok(t) => t.BranchEnd('}'))
    case Pair(first, second) =>
      match Render(s.BranchStart('('), first, scope)
      case Threw(t) => Threw(t)
      case Ok(t) =>
        match Render(t.PutText(", "), second, scope)
        case Threw(u) => Threw(u)
        case Ok(u) => u.BranchEnd(')')
  }

  /** The loop over a sequence container's items, each after "" (first) or ", ". */
  function RenderItems(s: Stream, items: seq<Value>, scope: KeyScope, ghost parent: Value): (r: Step)
    requires forall i | 0 <= i < |items| :: items[i] < parent
    ensures r.st.indent == s.indent
    decreases parent, 0, |items|
  {
    if items == [] then Ok(s)
    else
      var n := |items| - 1;
      match RenderItems(s, items[..n], scope, parent)
      case Threw(t) => Threw(t)
      case Ok(t) => RenderItem(t, items[n], n == 0, scope, parent)
  }

  /** One pass of the loop over a sequence container: "" (first) or ", ", then the item. */
  function RenderItem(s: Stream, item: Value, isFirst: bool, scope: KeyScope, ghost parent: Value): (r: Step)
    requires item < parent
    ensures r.st.indent == s.indent
    decreases parent, 0, 0
  {
    Render(s.PutText(if isFirst then "" else ", "), item, scope)
  }

  /** The state after the separator before a map entry: "," and, outside inline mode, "\n". */
  function EntrySeparator(s: Stream, isFirst: bool): (r: Stream)
    ensures r.depth == s.depth && r.inline == s.inline && r.indent == s.indent && s.out <= r.out
  {
    if isFirst then s
    else
      var t := s.PutText(",");
      if t.inline then t else t.PutText("\n")
  }

  /**
   * The separator's text: nothing before the first entry; otherwise "," and,
   * outside inline mode, "\n" and the indentation.
   */
  lemma EntrySeparatorText(s: Stream, isFirst: bool)
    ensures EntrySeparator(s, isFirst) == if isFirst then s else s.Raw(SeparatorText(s))
  {
    if !isFirst {
      PutTextPlain(s, ",");
      if !s.inline {
        PutNewline(s.Raw(","));
        RawRaw(s, ",", "\n" + Spaces(Pad(s.depth, s.indent)));
      }
    }
  }

  /** The text between two map entries: "," inline, otherwise ",", "\n" and the indentation. */
  function SeparatorText(s: Stream): string
  {
    if s.inline then "," else "," + ("\n" + Spaces(Pad(s.depth, s.indent)))
  }

  /** One pass of the loop over a map: the separator, the key in inline mode, ": ", the value. */
  function RenderEntry(s: Stream, e: Entry, isFirst: bool, scope: KeyScope, ghost parent: Value): (r: Step)
    requires e.key < parent && e.value < parent
    ensures r.st.indent == s.indent
    decreases parent, 0, 0
  {
    var before := EntrySeparator(s, isFirst);
    var restored := if scope == Scoped then before.inline else false;
    match Render(before.(inline := true), e.key, scope)
    case Threw(u) => if scope == Scoped then Threw(u.(inline := restored)) else Threw(u)
    case Ok(u) => Render(u.(inline := restored).PutText(": "), e.value, scope)
  }

  /** The loop over a map's entries: separator, key (in inline mode), ": ", value. */
  function RenderEntries(s: Stream, entries: seq<Entry>, scope: KeyScope, ghost parent: Value): (r: Step)
    requires forall i | 0 <= i < |entries| :: entries[i].key < parent && entries[i].value < parent
    ensures r.st.indent == s.indent
    decreases parent, 0, |entries|
  {
    if entries == [] then Ok(s)
    else
      var n := |entries| - 1;
      match RenderEntries(s, entries[..n], scope, parent)
      case Threw(t) => Threw(t)
      case Ok(t) => RenderEntry(t, entries[n], n == 0, scope, parent)
  }

  // ---------------------------------------------------------------------
  // Writing text: newlines are indented, every other character goes alone
  // ---------------------------------------------------------------------

  /** Reference meaning of writing text at indentation pad: each '\n' is followed by pad spaces. */
  function Indented(text: string, pad: nat): string
  {
    if text == [] then []
    else (if text[0] == '\n' then "\n" + Spaces(pad) else [text[0]]) + Indented(text[1..], pad)
  }

  lemma {:induction false} IndentedSnoc(text: string, c: char, pad: nat)
    ensures Indented(text + [c], pad) == Indented(text, pad) + (if c == '\n' then "\n" + Spaces(pad) else [c])
    decreases |text|
  {
    if text == [] {
      assert [c][1..] == [];
    } else {
      assert (text + [c])[1..] == text[1..] + [c];
      IndentedSnoc(text[1..], c, pad);
    }
  }

  /** Writing text char by char appends its indented form and changes no layout control. */
  lemma {:induction false} PutTextIndents(s: Stream, text: string)
    ensures s.PutText(text) == s.Raw(Indented(text, Pad(s.depth, s.indent)))
    decreases |text|
  {
    if text != [] {
      var n := |text| - 1;
      assert text == text[..n] + [text[n]];
      PutTextIndents(s, text[..n]);
      IndentedSnoc(text[..n], text[n], Pad(s.depth, s.indent));
    }
  }

  lemma {:induction false} IndentedPlain(text: string, pad: nat)
    requires '\n' !in text
    ensures Indented(text, pad) == text
    decreases |text|
  {
    if text != [] {
      IndentedPlain(text[1..], pad);
    }
  }

  /** Text without a newline is written exactly as it is. */
  lemma PutTextPlain(s: Stream, text: string)
    requires '\n' !in text
    ensures s.PutText(text) == s.Raw(text)
  {
    PutTextIndents(s, text);
    IndentedPlain(text, Pad(s.depth, s.indent));
  }

  /** A newline is written with the indentation after it. */
  lemma PutNewline(s: Stream)
    ensures s.PutText("\n") == s.Raw("\n" + Spaces(Pad(s.depth, s.indent)))
  {
    assert "\n"[..0] == [];
    RawRaw(s, "\n", Spaces(Pad(s.depth, s.indent)));
  }

  /** Writing a + b is writing a, then b. */
  lemma {:induction false} PutTextAppend(s: Stream, a: string, b: string)
    ensures s.PutText(a + b) == s.PutText(a).PutText(b)
    decreases |b|
  {
    if b == [] {
      assert a + b == a;
    } else {
      var n := |b| - 1;
      assert (a + b)[..|a + b| - 1] == a + b[..n];
      assert (a + b)[|a + b| - 1] == b[n];
      PutTextAppend(s, a, b[..n]);
    }
  }

  // ---------------------------------------------------------------------
  // Branches
  // ---------------------------------------------------------------------

  /** Two writes to the underlying stream are one write of both texts. */
  lemma RawRaw(s: Stream, a: string, b: string)
    ensures s.Raw(a).Raw(b) == s.Raw(a + b)
  {
    assert s.out + a + b == s.out + (a + b);
  }

  /** The text BranchStart(c) writes, for a bracket c. */
  lemma BranchStartText(s: Stream, c: char)
    requires c != '\n'
    ensures s.BranchStart(c)
         == if s.inline then s.Raw([c])
            else s.Raw([c] + "\n" + Spaces(Pad((s.depth + 1) % U32, s.indent))).(depth := (s.depth + 1) % U32)
  {
    if !s.inline {
      RawRaw(s, [c], "\n");
      RawRaw(s, [c] + "\n", Spaces(Pad((s.depth + 1) % U32, s.indent)));
    }
  }

  /** The text BranchEnd(c) writes, for a bracket c, when it does not throw. */
  lemma BranchEndText(s: Stream, c: char)
    requires c != '\n' && (s.inline || s.depth > 0)
    ensures s.BranchEnd(c)
         == if s.inline then Ok(s.Raw([c]))
            else Ok(s.Raw("\n" + Spaces(Pad(s.depth - 1, s.indent)) + [c]).(depth := s.depth - 1))
  {
    if !s.inline {
      RawRaw(s, "\n", Spaces(Pad(s.depth - 1, s.indent)));
      RawRaw(s, "\n" + Spaces(Pad(s.depth - 1, s.indent)), [c]);
    }
  }

  /** What BranchStart(open) writes: the bracket, and outside inline mode a newline and the deeper indentation. */
  function Opening(s: Stream, open: char): string
    requires s.inline || s.depth < U32 - 1
  {
    if s.inline then [open] else [open] + "\n" + Spaces(Pad(s.depth + 1, s.indent))
  }

  /** What the matching BranchEnd(close) writes: outside inline mode a newline and the outer indentation, then the bracket. */
  function Closing(s: Stream, close: char): string
  {
    if s.inline then [close] else "\n" + Spaces(Pad(s.depth, s.indent)) + [close]
  }

  /** The text a bracket pair writes around `text` written between them. */
  function Bracketed(s: Stream, open: char, close: char, text: string): string
    requires s.inline || s.depth < U32 - 1
  {
    Opening(s, open) + text + Closing(s, close)
  }

  /**
   * BranchStart, then `text`, then BranchEnd: the brackets, with a newline and
   * the deeper indentation after the opening one and a newline and the outer
   * indentation before the closing one, unless the stream is inline; the depth
   * comes back to where it was.
   */
  lemma BranchAround(s: Stream, open: char, close: char, text: string)
    requires s.inline || s.depth < U32 - 1
    requires open != '\n' && close != '\n'
    ensures s.BranchStart(open).Raw(text).BranchEnd(close) == Ok(s.Raw(Bracketed(s, open, close, text)))
  {
    var a := Opening(s, open);
    var u := s.Raw(a + text);
    assert s.BranchStart(open).Raw(text) == u.(depth := if s.inline then s.depth else s.depth + 1) by {
      BranchStartText(s, open);
      if !s.inline {
        assert (s.depth + 1) % U32 == s.depth + 1;
      }
      RawRaw(s, a, text);
    }
    assert u.(depth := if s.inline then s.depth else s.depth + 1).BranchEnd(close) == Ok(u.Raw(Closing(s, close))) by {
      BranchEndText(u.(depth := if s.inline then s.depth else s.depth + 1), close);
    }
    RawRaw(s, a + text, Closing(s, close));
  }

  /** An empty container is written as "[]" or "{}" and leaves the layout as it was. */
  lemma EmptyContainers(s: Stream, scope: KeyScope)
    ensures Render(s, Sequence([]), scope) == Ok(s.Raw("[]"))
    ensures Render(s, Mapping([]), scope) == Ok(s.Raw("{}"))
  {
    PutTextPlain(s, "[]");
    PutTextPlain(s, "{}");
  }

  /** An enum is written as "ENUM-" and the decimal form of its value cast to int32_t. */
  lemma RenderEnum(s: Stream, number: int, scope: KeyScope)
    ensures Render(s, Enum(number), scope) == Ok(s.Raw("ENUM-" + DecimalText(Int32(number))))
  {
    PutTextPlain(s, "ENUM-");
    RawRaw(s, "ENUM-", DecimalText(Int32(number)));
  }

  /** The text of a scalar; other values have none here. */
  function ScalarText(v: Value): string
  {
    if v.Fundamental? then v.text else []
  }

  /** The texts of fundamental items, separated by ", ". */
  function JoinTexts(items: seq<Value>): string
  {
    if items == [] then []
    else
      var n := |items| - 1;
      JoinTexts(items[..n]) + ((if n == 0 then "" else ", ") + ScalarText(items[n]))
  }

  /** A fundamental value is written straight to the underlying stream. */
  lemma RenderFundamental(s: Stream, v: Value, scope: KeyScope)
    requires v.Fundamental?
    ensures Render(s, v, scope) == Ok(s.Raw(v.text))
  {
  }

  lemma {:induction false} ItemsJoin(s: Stream, items: seq<Value>, scope: KeyScope, parent: Value)
    requires forall i | 0 <= i < |items| :: items[i] < parent && items[i].Fundamental?
    ensures RenderItems(s, items, scope, parent) == Ok(s.Raw(JoinTexts(items)))
    decreases |items|
  {
    if items != [] {
      var n := |items| - 1;
      assert forall i | 0 <= i < n :: items[..n][i] == items[i];
      ItemsJoin(s, items[..n], scope, parent);
      var t := s.Raw(JoinTexts(items[..n]));
      ItemJoin(t, items[n], n == 0, scope, parent);
      RawRaw(s, JoinTexts(items[..n]), (if n == 0 then "" else ", ") + ScalarText(items[n]));
    }
  }

  /** One scalar item: its separator and its text, written as they are. */
  lemma ItemJoin(s: Stream, item: Value, isFirst: bool, scope: KeyScope, parent: Value)
    requires item < parent && item.Fundamental?
    ensures RenderItem(s, item, isFirst, scope, parent) == Ok(s.Raw((if isFirst then "" else ", ") + item.text))
  {
    var sep := if isFirst then "" else ", ";
    PutTextPlain(s, sep);
    RenderFundamental(s.Raw(sep), item, scope);
    assert s.out + sep + item.text == s.out + (sep + item.text);
  }

  /**
   * A non-empty sequence container of scalars: "[", the items separated by
   * ", ", "]", with a newline and indentation inside the brackets outside
   * inline mode.
   */
  lemma ScalarSequence(s: Stream, items: seq<Value>, scope: KeyScope)
    requires items != [] && forall i | 0 <= i < |items| :: items[i].Fundamental?
    requires s.inline || s.depth < U32 - 1
    ensures Render(s, Sequence(items), scope) == Ok(s.Raw(Bracketed(s, '[', ']', JoinTexts(items))))
  {
    var v := Sequence(items);
    var s1 := s.BranchStart('[');
    var t := s1.Raw(JoinTexts(items));
    assert Render(s, v, scope) == t.BranchEnd(']') by {
      ItemsJoin(s1, items, scope, v);
    }
    BranchAround(s, '[', ']', JoinTexts(items));
  }

  /** A pair of scalars: "(", the first, ", ", the second, ")", with the same bracket layout. */
  lemma ScalarPair(s: Stream, first: Value, second: Value, scope: KeyScope)
    requires first.Fundamental? && second.Fundamental?
    requires s.inline || s.depth < U32 - 1
    ensures Render(s, Pair(first, second), scope)
         == Ok(s.Raw(Bracketed(s, '(', ')', first.text + ", " + second.text)))
  {
    var s1 := s.BranchStart('(');
    PutTextPlain(s1.Raw(first.text), ", ");
    RawRaw(s1, first.text, ", ");
    RawRaw(s1, first.text + ", ", second.text);
    BranchAround(s, '(', ')', first.text + ", " + second.text);
  }

  /** A map entry whose key and value are scalars. */
  predicate ScalarEntry(e: Entry)
  {
    e.key.Fundamental? && e.value.Fundamental?
  }

  /** The text of a scalar entry: the key, ": ", the value. */
  function EntryText(e: Entry): string
  {
    ScalarText(e.key) + ": " + ScalarText(e.value)
  }

  /** The texts of scalar entries, separated by sep. */
  function JoinEntries(entries: seq<Entry>, sep: string): string
  {
    if entries == [] then []
    else if |entries| == 1 then EntryText(entries[0])
    else JoinEntries(entries[..|entries| - 1], sep) + (sep + EntryText(entries[|entries| - 1]))
  }

  /**
   * One scalar entry: the separator, then the key and value with ": "
   * between them; is_inline is then restored under the guard, false as written.
   */
  lemma ScalarEntryStep(s: Stream, e: Entry, isFirst: bool, scope: KeyScope, parent: Value)
    requires e.key < parent && e.value < parent && ScalarEntry(e)
    ensures RenderEntry(s, e, isFirst, scope, parent)
         == Ok(EntrySeparator(s, isFirst).Raw(EntryText(e)).(inline := scope == Scoped && s.inline))
  {
    var before := EntrySeparator(s, isFirst);
    var restored := scope == Scoped && s.inline;
    var k := before.Raw(e.key.text);
    PutTextPlain(k.(inline := restored), ": ");
    RawRaw(before, e.key.text, ": ");
    RawRaw(before, e.key.text + ": ", e.value.text);
  }

  /**
   * The loop over scalar entries: their texts joined by the separator the
   * stream's layout after the first key calls for.
   */
  lemma {:induction false} ScalarEntries(s: Stream, entries: seq<Entry>, scope: KeyScope, parent: Value)
    requires entries != []
    requires forall i | 0 <= i < |entries| ::
      entries[i].key < parent && entries[i].value < parent && ScalarEntry(entries[i])
    ensures RenderEntries(s, entries, scope, parent)
         == Ok(s.Raw(JoinEntries(entries, SeparatorText(s.(inline := scope == Scoped && s.inline))))
                .(inline := scope == Scoped && s.inline))
    decreases |entries|
  {
    var n := |entries| - 1;
    var inl := scope == Scoped && s.inline;
    var sep := SeparatorText(s.(inline := inl));
    if n == 0 {
      assert RenderEntries(s, entries, scope, parent) == RenderEntry(s, entries[0], true, scope, parent) by {
        assert entries[..0] == [];
      }
      ScalarEntryStep(s, entries[0], true, scope, parent);
    } else {
      var j := JoinEntries(entries[..n], sep);
      var t := s.Raw(j).(inline := inl);
      assert RenderEntries(s, entries[..n], scope, parent) == Ok(t) by {
        assert forall i | 0 <= i < n :: entries[..n][i] == entries[i];
        ScalarEntries(s, entries[..n], scope, parent);
      }
      assert RenderEntries(s, entries, scope, parent) == RenderEntry(t, entries[n], false, scope, parent);
      assert JoinEntries(entries, sep) == j + (sep + EntryText(entries[n]));
      ScalarEntryAfter(s, j, entries[n], scope, parent);
    }
  }

  /** A later scalar entry appends the separator and its text to what the loop wrote before it. */
  lemma ScalarEntryAfter(s: Stream, j: string, e: Entry, scope: KeyScope, parent: Value)
    requires e.key < parent && e.value < parent && ScalarEntry(e)
    ensures var inl := scope == Scoped && s.inline;
      RenderEntry(s.Raw(j).(inline := inl), e, false, scope, parent)
        == Ok(s.Raw(j + (SeparatorText(s.(inline := inl)) + EntryText(e))).(inline := inl))
  {
    var inl := scope == Scoped && s.inline;
    var t := s.Raw(j).(inline := inl);
    var sep := SeparatorText(s.(inline := inl));
    ScalarEntryStep(t, e, false, scope, parent);
    EntrySeparatorText(t, false);
    assert SeparatorText(t) == sep;
    RawRaw(s.Raw(j), sep, EntryText(e));
    RawRaw(s, j, sep + EntryText(e));
  }

  /**
   * A non-empty map of scalars, with map keys under the restoring guard or
   * on a stream that is not inline: "{", the entries separated by "," (and,
   * outside inline mode, a newline and the deeper indentation), "}".
   */
  lemma ScalarMap(s: Stream, entries: seq<Entry>, scope: KeyScope)
    requires entries != [] && forall i | 0 <= i < |entries| :: ScalarEntry(entries[i])
    requires s.inline || s.depth < U32 - 1
    requires s.inline ==> scope == Scoped
    ensures Render(s, Mapping(entries), scope)
         == Ok(s.Raw(Bracketed(s, '{', '}',
                JoinEntries(entries, if s.inline then "," else "," + ("\n" + Spaces(Pad(s.depth + 1, s.indent)))))))
  {
    var v := Mapping(entries);
    var s1 := s.BranchStart('{');
    if !s.inline {
      assert (s.depth + 1) % U32 == s.depth + 1;
    }
    var j := JoinEntries(entries, SeparatorText(s1));
    assert Render(s, v, scope) == s1.Raw(j).BranchEnd('}') by {
      assert forall i | 0 <= i < |entries| :: entries[i].key < v && entries[i].value < v;
      ScalarEntries(s1, entries, scope, v);
      assert s1.(inline := scope == Scoped && s1.inline) == s1;
    }
    BranchAround(s, '{', '}', j);
  }

  // ---------------------------------------------------------------------
  // Output only grows; a thrown exception ends the loop
  // ---------------------------------------------------------------------

  /** The loop over items[..k+1] is the loop over items[..k] followed by one more pass. */
  lemma ItemsPrefixStep(s: Stream, items: seq<Value>, k: nat, scope: KeyScope, parent: Value)
    requires k < |items|
    requires forall i | 0 <= i < |items| :: items[i] < parent
    ensures RenderItems(s, items[..k + 1], scope, parent)
         == match RenderItems(s, items[..k], scope, parent)
            case Threw(t) => Threw(t)
            case Ok(t) => RenderItem(t, items[k], k == 0, scope, parent)
  {
    assert items[..k + 1][..k] == items[..k];
  }

  /** After the loop over entries[..k] reaches t, the loop over entries[..k+1] is one more pass from t. */
  lemma EntriesPrefixStep(s: Stream, entries: seq<Entry>, k: nat, scope: KeyScope, parent: Value, t: Stream)
    requires k < |entries|
    requires forall i | 0 <= i < |entries| :: entries[i].key < parent && entries[i].value < parent
    requires RenderEntries(s, entries[..k], scope, parent) == Ok(t)
    ensures RenderEntries(s, entries[..k + 1], scope, parent) == RenderEntry(t, entries[k], k == 0, scope, parent)
  {
    assert entries[..k + 1][..k] == entries[..k];
  }

  /** Once an item throws, the rest of the loop is not run: the exception is the loop's outcome. */
  lemma {:induction false} ItemsThrowAbsorbs(s: Stream, items: seq<Value>, j: nat, scope: KeyScope, parent: Value)
    requires j <= |items|
    requires forall i | 0 <= i < |items| :: items[i] < parent
    requires RenderItems(s, items[..j], scope, parent).Threw?
    ensures RenderItems(s, items, scope, parent) == RenderItems(s, items[..j], scope, parent)
    decreases |items|
  {
    if j < |items| {
      var n := |items| - 1;
      assert items[..n][..j] == items[..j];
      ItemsThrowAbsorbs(s, items[..n], j, scope, parent);
    } else {
      assert items[..j] == items;
    }
  }

  /** Once a map entry throws, the rest of the loop is not run. */
  lemma {:induction false} EntriesThrowAbsorbs(s: Stream, entries: seq<Entry>, j: nat, scope: KeyScope, parent: Value)
    requires j <= |entries|
    requires forall i | 0 <= i < |entries| :: entries[i].key < parent && entries[i].value < parent
    requires RenderEntries(s, entries[..j], scope, parent).Threw?
    ensures RenderEntries(s, entries, scope, parent) == RenderEntries(s, entries[..j], scope, parent)
    decreases |entries|
  {
    if j < |entries| {
      var n := |entries| - 1;
      assert entries[..n][..j] == entries[..j];
      EntriesThrowAbsorbs(s, entries[..n], j, scope, parent);
    } else {
      assert entries[..j] == entries;
    }
  }

  /** A prefix of a prefix is a prefix. */
  lemma PrefixTrans(a: string, b: string, c: string)
    requires a <= b && b <= c
    ensures a <= c
  {
    assert b[..|a|] == a && c[..|b|] == b;
    assert c[..|a|] == c[..|b|][..|a|];
  }

  /** Writing a value only appends to the text, whether or not it throws. */
  lemma {:induction false} RenderExtends(s: Stream, v: Value, scope: KeyScope)
    ensures s.out <= Render(s, v, scope).st.out
    decreases v, 1
  {
    match v
    case Sequence(items) =>
      if items != [] {
        var s1 := s.BranchStart('[');
        ItemsExtend(s1, items, scope, v);
        var r := RenderItems(s1, items, scope, v);
        if r.Ok? {
          PrefixTrans(s1.out, r.st.out, r.st.BranchEnd(']').st.out);
        }
        PrefixTrans(s.out, s1.out, Render(s, v, scope).st.out);
      }
    case Mapping(entries) =>
      if entries != [] {
        var s1 := s.BranchStart('{');
        EntriesExtend(s1, entries, scope, v);
        var r := RenderEntries(s1, entries, scope, v);
        if r.Ok? {
          PrefixTrans(s1.out, r.st.out, r.st.BranchEnd('}').st.out);
        }
        PrefixTrans(s.out, s1.out, Render(s, v, scope).st.out);
      }
    case Pair(first, second) =>
      PairExtends(s, first, second, scope);
    case _ =>
  }

  lemma {:induction false} PairExtends(s: Stream, first: Value, second: Value, scope: KeyScope)
    ensures s.out <= Render(s, Pair(first, second), scope).st.out
    decreases Pair(first, second), 0
  {
    var s1 := s.BranchStart('(');
    RenderExtends(s1, first, scope);
    var r := Render(s1, first, scope);
    PrefixTrans(s.out, s1.out, r.st.out);
    if r.Ok? {
      var t := r.st.PutText(", ");
      RenderExtends(t, second, scope);
      var u := Render(t, second, scope);
      PrefixTrans(s.out, r.st.out, t.out);
      PrefixTrans(s.out, t.out, u.st.out);
      if u.Ok? {
        PrefixTrans(s.out, u.st.out, u.st.BranchEnd(')').st.out);
      }
    }
  }

  lemma {:induction false} ItemsExtend(s: Stream, items: seq<Value>, scope: KeyScope, parent: Value)
    requires forall i | 0 <= i < |items| :: items[i] < parent
    ensures s.out <= RenderItems(s, items, scope, parent).st.out
    decreases parent, 0, |items|
  {
    if items != [] {
      var n := |items| - 1;
      var r := RenderItems(s, items[..n], scope, parent);
      assert s.out <= r.st.out by {
        assert forall i | 0 <= i < n :: items[..n][i] == items[i];
        ItemsExtend(s, items[..n], scope, parent);
      }
      if r.Ok? {
        var t := r.st.PutText(if n == 0 then "" else ", ");
        RenderExtends(t, items[n], scope);
        assert RenderItems(s, items, scope, parent) == Render(t, items[n], scope) by {
          assert RenderItems(s, items, scope, parent) == RenderItem(r.st, items[n], n == 0, scope, parent);
        }
        PrefixTrans(s.out, r.st.out, t.out);
        PrefixTrans(s.out, t.out, Render(t, items[n], scope).st.out);
      }
    }
  }

  lemma {:induction false} EntriesExtend(s: Stream, entries: seq<Entry>, scope: KeyScope, parent: Value)
    requires forall i | 0 <= i < |entries| :: entries[i].key < parent && entries[i].value < parent
    ensures s.out <= RenderEntries(s, entries, scope, parent).st.out
    decreases parent, 0, |entries|
  {
    if entries != [] {
      var n := |entries| - 1;
      var r := RenderEntries(s, entries[..n], scope, parent);
      assert s.out <= r.st.out by {
        assert forall i | 0 <= i < n :: entries[..n][i] == entries[i];
        EntriesExtend(s, entries[..n], scope, parent);
      }
      if r.Ok? {
        EntryExtends(r.st, entries[n], n == 0, scope, parent);
        assert RenderEntries(s, entries, scope, parent) == RenderEntry(r.st, entries[n], n == 0, scope, parent);
        PrefixTrans(s.out, r.st.out, RenderEntry(r.st, entries[n], n == 0, scope, parent).st.out);
      }
    }
  }

  lemma {:induction false} EntryExtends(s: Stream, e: Entry, isFirst: bool, scope: KeyScope, parent: Value)
    requires e.key < parent && e.value < parent
    ensures s.out <= RenderEntry(s, e, isFirst, scope, parent).st.out
    decreases parent, 0, 0
  {
    var before := EntrySeparator(s, isFirst);
    RenderExtends(before.(inline := true), e.key, scope);
    var k := Render(before.(inline := true), e.key, scope);
    PrefixTrans(s.out, before.out, k.st.out);
    if k.Ok? {
      var restored := if scope == Scoped then before.inline else false;
      var t := k.st.(inline := restored).PutText(": ");
      RenderExtends(t, e.value, scope);
      PrefixTrans(s.out, k.st.out, t.out);
      PrefixTrans(s.out, t.out, Render(t, e.value, scope).st.out);
    }
  }

  // ---------------------------------------------------------------------
  // Map keys as written: is_inline is not restored
  // ---------------------------------------------------------------------

  /** Whether a value holds a non-empty map anywhere. */
  predicate HasMap(v: Value)
  {
    match v
    case Sequence(items) => exists i | 0 <= i < |items| :: HasMap(items[i])
    case Mapping(entries) => entries != []
    case Pair(first, second) => HasMap(first) || HasMap(second)
    case _ => false
  }

  /**
   * As written, writing a value that holds a non-empty map leaves is_inline
   * false whatever it was before; any other value leaves it unchanged.
   */
  lemma {:induction false} InlineAfterRender(s: Stream, v: Value)
    ensures Render(s, v, AsWritten).Ok? ==> Render(s, v, AsWritten).st.inline == (s.inline && !HasMap(v))
    decreases v, 1
  {
    match v
    case Sequence(items) =>
      if |items| > 0 {
        InlineAfterItems(s.BranchStart('['), items, v);
      }
    case Mapping(entries) =>
      if |entries| > 0 {
        InlineAfterEntries(s.BranchStart('{'), entries, v);
      }
    case Pair(first, second) =>
      InlineAfterRender(s.BranchStart('('), first);
      var r := Render(s.BranchStart('('), first, AsWritten);
      if r.Ok? {
        InlineAfterRender(r.st.PutText(", "), second);
      }
    case _ =>
  }

  lemma {:induction false} InlineAfterItems(s: Stream, items: seq<Value>, parent: Value)
    requires forall i | 0 <= i < |items| :: items[i] < parent
    ensures RenderItems(s, items, AsWritten, parent).Ok? ==>
      RenderItems(s, items, AsWritten, parent).st.inline
        == (s.inline && forall i | 0 <= i < |items| :: !HasMap(items[i]))
    decreases parent, 0, |items|
  {
    if items != [] {
      var n := |items| - 1;
      InlineAfterItems(s, items[..n], parent);
      var r := RenderItems(s, items[..n], AsWritten, parent);
      if r.Ok? {
        InlineAfterRender(r.st.PutText(if n == 0 then "" else ", "), items[n]);
        assert RenderItems(s, items, AsWritten, parent) == RenderItem(r.st, items[n], n == 0, AsWritten, parent);
        assert (forall i | 0 <= i < |items| :: !HasMap(items[i]))
           <==> (forall i | 0 <= i < n :: !HasMap(items[..n][i])) && !HasMap(items[n]);
      }
    }
  }

  lemma {:induction false} InlineAfterEntries(s: Stream, entries: seq<Entry>, parent: Value)
    requires forall i | 0 <= i < |entries| :: entries[i].key < parent && entries[i].value < parent
    ensures RenderEntries(s, entries, AsWritten, parent).Ok? ==>
      RenderEntries(s, entries, AsWritten, parent).st.inline == (s.inline && entries == [])
    decreases parent, 0, |entries|
  {
    if entries != [] {
      var n := |entries| - 1;
      var r := RenderEntries(s, entries[..n], AsWritten, parent);
      if r.Ok? {
        InlineAfterEntry(r.st, entries[n], n == 0, parent);
      }
    }
  }

  lemma {:induction false} InlineAfterEntry(s: Stream, e: Entry, isFirst: bool, parent: Value)
    requires e.key < parent && e.value < parent
    ensures RenderEntry(s, e, isFirst, AsWritten, parent).Ok? ==> !RenderEntry(s, e, isFirst, AsWritten, parent).st.inline
    decreases parent, 0, 0
  {
    var before := EntrySeparator(s, isFirst);
    var k := Render(before.(inline := true), e.key, AsWritten);
    if k.Ok? {
      InlineAfterRender(k.st.(inline := false).PutText(": "), e.value);
    }
  }

  /** As written, after any non-empty map is_inline is false. */
  lemma NonEmptyMapClearsInline(s: Stream, entries: seq<Entry>)
    requires entries != []
    ensures Render(s, Mapping(entries), AsWritten).Ok? ==> !Render(s, Mapping(entries), AsWritten).st.inline
  {
    InlineAfterRender(s, Mapping(entries));
  }

  /**
   * As written, a non-empty map of scalars written to an inline stream at
   * depth 0 throws: is_inline is false after the first key, so the entries
   * after it are separated by ",\n" and the closing BranchEnd finds depth 0.
   */
  lemma InlineScalarMapThrows(s: Stream, entries: seq<Entry>)
    requires entries != [] && forall i | 0 <= i < |entries| :: ScalarEntry(entries[i])
    requires s.inline && s.depth == 0
    ensures Render(s, Mapping(entries), AsWritten)
         == Threw(Stream(s.out + "{" + JoinEntries(entries, ",\n") + "\n", 0, false, s.indent))
  {
    var v := Mapping(entries);
    var s1 := s.Raw("{");
    var t := s1.Raw(JoinEntries(entries, ",\n")).(inline := false);
    assert RenderEntries(s1, entries, AsWritten, v) == Ok(t) by {
      assert SeparatorText(s1.(inline := false)) == ",\n" by {
        assert Spaces(Pad(0, s.indent)) == [];
      }
      assert forall i | 0 <= i < |entries| :: entries[i].key < v && entries[i].value < v;
      ScalarEntries(s1, entries, AsWritten, v);
    }
    assert Render(s, v, AsWritten) == t.BranchEnd('}') by {
      assert s.BranchStart('{') == s1;
    }
  }

  /** std::map<int, int>{{1, 2}} written to an inline DebugStream, as written. */
  lemma InlineMapThrows()
    ensures Render(Initial.(inline := true), Mapping([Entry(Fundamental("1"), Fundamental("2"))]), AsWritten)
         == Threw(Stream("{1: 2\n", 0, false, 2))
  {
    var entries := [Entry(Fundamental("1"), Fundamental("2"))];
    InlineScalarMapThrows(Initial.(inline := true), entries);
    assert JoinEntries(entries, ",\n") == "1: 2";
  }

  /** std::map<std::map<int, int>, int>{{{{1, 2}}, 3}}: a map whose key is a non-empty map. */
  function NestedMapKey(): Value
  {
    Mapping([Entry(Mapping([Entry(Fundamental("1"), Fundamental("2"))]), Fundamental("3"))])
  }

  /** The outer '{' on a fresh stream, and the inner '{' of the key written inline. */
  lemma NestedMapKeyOpens()
    ensures Initial.BranchStart('{') == Stream("{\n  ", 1, false, 2)
    ensures Stream("{\n  ", 1, true, 2).BranchStart('{') == Stream("{\n  {", 1, true, 2)
    ensures Spaces(Pad(0, 2)) == []
  {
    assert Pad(1, 2) == 2;
    assert Spaces(2) == "  ";
  }

  /**
   * As written, a map whose key is a non-empty map cannot be written to a
   * fresh DebugStream: the inner map's key sets is_inline to false, so the
   * inner BranchEnd consumes the outer level, and the outer BranchEnd then
   * throws at depth 0.
   */
  lemma NestedMapKeyThrows()
    ensures Render(Initial, NestedMapKey(), AsWritten) == Threw(Stream("{\n  {1: 2\n}: 3\n", 0, false, 2))
  {
    var inner := [Entry(Fundamental("1"), Fundamental("2"))];
    var outer := [Entry(Mapping(inner), Fundamental("3"))];
    var parent := NestedMapKey();
    assert outer[..0] == [] && inner[..0] == [];
    var s1 := Stream("{\n  ", 1, false, 2);
    var k := Stream("{\n  {", 1, true, 2);
    NestedMapKeyOpens();
    var a1 := Stream("{\n  {1: 2", 1, false, 2);
    assert RenderEntry(k, inner[0], true, AsWritten, Mapping(inner)) == Ok(a1) by {
      RenderFundamental(k, Fundamental("1"), AsWritten);
      PutTextPlain(Stream("{\n  {1", 1, false, 2), ": ");
      RenderFundamental(Stream("{\n  {1: ", 1, false, 2), Fundamental("2"), AsWritten);
      assert k.(inline := true) == k && EntrySeparator(k, true) == k;
      assert k.Raw("1") == Stream("{\n  {1", 1, true, 2);
      assert Stream("{\n  {1", 1, false, 2).Raw(": ") == Stream("{\n  {1: ", 1, false, 2);
      assert Stream("{\n  {1: ", 1, false, 2).Raw("2") == a1;
    }
    assert RenderEntries(k, inner, AsWritten, Mapping(inner)) == Ok(a1);
    var a2 := Stream("{\n  {1: 2\n}", 0, false, 2);
    assert a1.BranchEnd('}') == Ok(a2);
    assert Render(s1.(inline := true), Mapping(inner), AsWritten) == Ok(a2);
    var a3 := Stream("{\n  {1: 2\n}: 3", 0, false, 2);
    assert RenderEntry(s1, outer[0], true, AsWritten, parent) == Ok(a3) by {
      PutTextPlain(a2, ": ");
      RenderFundamental(Stream("{\n  {1: 2\n}: ", 0, false, 2), Fundamental("3"), AsWritten);
    }
    assert RenderEntries(s1, outer, AsWritten, parent) == Ok(a3);
    assert a3.BranchEnd('}') == Threw(Stream("{\n  {1: 2\n}: 3\n", 0, false, 2));
  }

  /** With the key's inline mode restored on leaving it, the same map is written and the depth returns to 0. */
  lemma NestedMapKeyScoped()
    ensures Render(Initial, NestedMapKey(), Scoped) == Ok(Stream("{\n  {1: 2}: 3\n}", 0, false, 2))
  {
    var inner := [Entry(Fundamental("1"), Fundamental("2"))];
    var outer := [Entry(Mapping(inner), Fundamental("3"))];
    var parent := NestedMapKey();
    assert outer[..0] == [] && inner[..0] == [];
    var s1 := Stream("{\n  ", 1, false, 2);
    var k := Stream("{\n  {", 1, true, 2);
    NestedMapKeyOpens();
    var b1 := Stream("{\n  {1: 2", 1, true, 2);
    assert RenderEntry(k, inner[0], true, Scoped, Mapping(inner)) == Ok(b1) by {
      RenderFundamental(k, Fundamental("1"), Scoped);
      PutTextPlain(Stream("{\n  {1", 1, true, 2), ": ");
      RenderFundamental(Stream("{\n  {1: ", 1, true, 2), Fundamental("2"), Scoped);
      assert k.(inline := true) == k && EntrySeparator(k, true) == k;
      assert k.Raw("1") == Stream("{\n  {1", 1, true, 2);
      assert Stream("{\n  {1", 1, true, 2).Raw(": ") == Stream("{\n  {1: ", 1, true, 2);
      assert Stream("{\n  {1: ", 1, true, 2).Raw("2") == b1;
    }
    assert RenderEntries(k, inner, Scoped, Mapping(inner)) == Ok(b1);
    var b2 := Stream("{\n  {1: 2}", 1, true, 2);
    assert b1.BranchEnd('}') == Ok(b2);
    assert Render(s1.(inline := true), Mapping(inner), Scoped) == Ok(b2);
    var b3 := Stream("{\n  {1: 2}: 3", 1, false, 2);
    assert RenderEntry(s1, outer[0], true, Scoped, parent) == Ok(b3) by {
      PutTextPlain(b2.(inline := false), ": ");
      RenderFundamental(Stream("{\n  {1: 2}: ", 1, false, 2), Fundamental("3"), Scoped);
    }
    assert RenderEntries(s1, outer, Scoped, parent) == Ok(b3);
    assert b3.BranchEnd('}') == Ok(Stream("{\n  {1: 2}: 3\n}", 0, false, 2));
  }

  // ---------------------------------------------------------------------
  // Map keys with is_inline restored (the intended behaviour)
  // ---------------------------------------------------------------------

  /** Whether the branches of a value nest at most `room` levels deep. */
  predicate NestsWithin(v: Value, room: nat)
  {
    match v
    case Sequence(items) =>
      items == [] || (room > 0 && forall i | 0 <= i < |items| :: NestsWithin(items[i], room - 1))
    case Mapping(entries) =>
      entries == [] ||
      (room > 0 && forall i | 0 <= i < |entries| ::
         NestsWithin(entries[i].key, room - 1) && NestsWithin(entries[i].value, room - 1))
    case Pair(first, second) => room > 0 && NestsWithin(first, room - 1) && NestsWithin(second, room - 1)
    case _ => true
  }

  /**
   * With map keys written under a restoring scope guard, writing any value
   * never throws and leaves depth and is_inline as they were, provided the
   * uint32_t depth cannot wrap around.
   */
  lemma {:induction false} ScopedRenderBalanced(s: Stream, v: Value, room: nat)
    requires s.depth + room < U32
    requires NestsWithin(v, room)
    ensures Render(s, v, Scoped).Ok?
    ensures Render(s, v, Scoped).st.depth == s.depth && Render(s, v, Scoped).st.inline == s.inline
    decreases v, 1
  {
    match v
    case Sequence(items) =>
      if items != [] {
        var s1 := BranchStartKeepsRoom(s, '[', room);
        ScopedItemsBalanced(s1, items, v, room - 1);
        assert Render(s, v, Scoped) == RenderItems(s1, items, Scoped, v).st.BranchEnd(']');
      }
    case Mapping(entries) =>
      if entries != [] {
        var s1 := BranchStartKeepsRoom(s, '{', room);
        ScopedEntriesBalanced(s1, entries, v, room - 1);
        assert Render(s, v, Scoped) == RenderEntries(s1, entries, Scoped, v).st.BranchEnd('}');
      }
    case Pair(first, second) =>
      var s1 := BranchStartKeepsRoom(s, '(', room);
      ScopedRenderBalanced(s1, first, room - 1);
      var t := Render(s1, first, Scoped).st;
      ScopedRenderBalanced(t.PutText(", "), second, room - 1);
      assert Render(s, v, Scoped) == Render(t.PutText(", "), second, Scoped).st.BranchEnd(')');
    case _ =>
  }

  /** BranchStart with room for one more level: the depth grows by one outside inline mode, without wrapping. */
  lemma BranchStartKeepsRoom(s: Stream, c: char, room: nat) returns (s1: Stream)
    requires s.depth + room < U32 && room > 0
    ensures s1 == s.BranchStart(c)
    ensures s1.inline == s.inline && s1.indent == s.indent
    ensures s1.depth == if s.inline then s.depth else s.depth + 1
    ensures s1.depth + (room - 1) < U32
  {
    s1 := s.BranchStart(c);
    assert (s.depth + 1) % U32 == s.depth + 1;
  }

  lemma {:induction false} ScopedItemsBalanced(s: Stream, items: seq<Value>, parent: Value, room: nat)
    requires forall i | 0 <= i < |items| :: items[i] < parent
    requires s.depth + room < U32
    requires forall i | 0 <= i < |items| :: NestsWithin(items[i], room)
    ensures RenderItems(s, items, Scoped, parent).Ok?
    ensures RenderItems(s, items, Scoped, parent).st.depth == s.depth
    ensures RenderItems(s, items, Scoped, parent).st.inline == s.inline
    decreases parent, 0, |items|
  {
    if items != [] {
      var n := |items| - 1;
      var r := RenderItems(s, items[..n], Scoped, parent);
      assert r.Ok? && r.st.depth == s.depth && r.st.inline == s.inline by {
        assert forall i | 0 <= i < n :: items[..n][i] == items[i];
        ScopedItemsBalanced(s, items[..n], parent, room);
      }
      ScopedRenderBalanced(r.st.PutText(if n == 0 then "" else ", "), items[n], room);
      assert RenderItems(s, items, Scoped, parent) == RenderItem(r.st, items[n], n == 0, Scoped, parent);
    }
  }

  lemma {:induction false} ScopedEntriesBalanced(s: Stream, entries: seq<Entry>, parent: Value, room: nat)
    requires forall i | 0 <= i < |entries| :: entries[i].key < parent && entries[i].value < parent
    requires s.depth + room < U32
    requires forall i | 0 <= i < |entries| ::
      NestsWithin(entries[i].key, room) && NestsWithin(entries[i].value, room)
    ensures RenderEntries(s, entries, Scoped, parent).Ok?
    ensures RenderEntries(s, entries, Scoped, parent).st.depth == s.depth
    ensures RenderEntries(s, entries, Scoped, parent).st.inline == s.inline
    decreases parent, 0, |entries|
  {
    if entries != [] {
      var n := |entries| - 1;
      var r := RenderEntries(s, entries[..n], Scoped, parent);
      assert r.Ok? && r.st.depth == s.depth && r.st.inline == s.inline by {
        assert forall i | 0 <= i < n :: entries[..n][i] == entries[i];
        ScopedEntriesBalanced(s, entries[..n], parent, room);
      }
      ScopedEntryBalanced(r.st, entries[n], n == 0, parent, room);
      assert RenderEntries(s, entries, Scoped, parent) == RenderEntry(r.st, entries[n], n == 0, Scoped, parent);
    }
  }

  lemma {:induction false} ScopedEntryBalanced(s: Stream, e: Entry, isFirst: bool, parent: Value, room: nat)
    requires e.key < parent && e.value < parent
    requires s.depth + room < U32
    requires NestsWithin(e.key, room) && NestsWithin(e.value, room)
    ensures RenderEntry(s, e, isFirst, Scoped, parent).Ok?
    ensures RenderEntry(s, e, isFirst, Scoped, parent).st.depth == s.depth
    ensures RenderEntry(s, e, isFirst, Scoped, parent).st.inline == s.inline
    decreases parent, 0, 0
  {
    var before := EntrySeparator(s, isFirst);
    ScopedRenderBalanced(before.(inline := true), e.key, room);
    var u := Render(before.(inline := true), e.key, Scoped).st;
    ScopedRenderBalanced(u.(inline := before.inline).PutText(": "), e.value, room);
  }

  /** The two ways of writing map keys differ only on values that hold a non-empty map. */
  lemma {:induction false} ModesAgreeWithoutMaps(s: Stream, v: Value)
    requires !HasMap(v)
    ensures Render(s, v, AsWritten) == Render(s, v, Scoped)
    decreases v, 1
  {
    match v
    case Sequence(items) =>
      if items != [] {
        ItemsAgreeWithoutMaps(s.BranchStart('['), items, v);
      }
    case Pair(first, second) =>
      var s1 := s.BranchStart('(');
      ModesAgreeWithoutMaps(s1, first);
      var r := Render(s1, first, Scoped);
      if r.Ok? {
        ModesAgreeWithoutMaps(r.st.PutText(", "), second);
      }
    case _ =>
  }

  lemma {:induction false} ItemsAgreeWithoutMaps(s: Stream, items: seq<Value>, parent: Value)
    requires forall i | 0 <= i < |items| :: items[i] < parent && !HasMap(items[i])
    ensures RenderItems(s, items, AsWritten, parent) == RenderItems(s, items, Scoped, parent)
    decreases parent, 0, |items|
  {
    if items != [] {
      var n := |items| - 1;
      ItemsAgreeWithoutMaps(s, items[..n], parent);
      var r := RenderItems(s, items[..n], Scoped, parent);
      if r.Ok? {
        ModesAgreeWithoutMaps(r.st.PutText(if n == 0 then "" else ", "), items[n]);
        assert RenderItems(s, items, Scoped, parent) == RenderItem(r.st, items[n], n == 0, Scoped, parent);
      }
    }
  }

  /** So, as written, a value without maps is written without throwing and restores the layout. */
  lemma MapFreeRenderBalanced(s: Stream, v: Value, room: nat)
    requires !HasMap(v) && s.depth + room < U32 && NestsWithin(v, room)
    ensures Render(s, v, AsWritten).Ok?
    ensures Render(s, v, AsWritten).st.depth == s.depth && Render(s, v, AsWritten).st.inline == s.inline
  {
    ModesAgreeWithoutMaps(s, v);
    ScopedRenderBalanced(s, v, room);
  }
}
