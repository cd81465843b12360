/** Chapter numbering of Player.js: the 100 selector options, the zero-padded chapter string,
    the audio file path and the heading title searched for in the text documents. */
module Chapters {
  import opened Decimal

  const ChapterCount: nat := 100

  /** One `<option>` of the chapter selector. */
  datatype ChapterOption = ChapterOption(value: string, text: string)

  /** `String(chapterNumber).padStart(3, '0')` */
  function ChapterPadded(chapterNumber: string): string
  {
    Pad3(chapterNumber)
  }

  /** The audio source assigned when a chapter is loaded. */
  function AudioPath(chapterNumber: string): string
  {
    "Audio_Sync_S_Verses_Only/Narayaneeyam_D" + ChapterPadded(chapterNumber) + ".mp3"
  }

  /** The `data-chapter` value the loader looks for in both documents. */
  function SearchTitle(chapterNumber: string): string
  {
    "Narayaneeyam D" + ChapterPadded(chapterNumber)
  }

  /** The option the setup loop creates for chapter `i`. */
  function OptionFor(i: nat): ChapterOption
  {
    ChapterOption(Pad3(NatToString(i)), "Dashakam " + NatToString(i))
  }

  /** The setup loop: one option per chapter 1..100, in order. */
  method BuildChapterOptions() returns (options: seq<ChapterOption>)
    ensures |options| == ChapterCount
    ensures forall k :: 0 <= k < |options| ==> options[k] == OptionFor(k + 1)
  {
    options := [];
    for i := 1 to ChapterCount + 1
      invariant options == Enumerate(i - 1, OptionFor)
    {
      var chapterNumber := Pad3(NatToString(i));
      var option := ChapterOption(chapterNumber, "Dashakam " + NatToString(i));
      options := options + [option];
    }
    EnumerateAt(ChapterCount, OptionFor);
  }

  /** `[f(1), ..., f(n)]` */
  function Enumerate(n: nat, f: nat -> ChapterOption): seq<ChapterOption>
  {
    if n == 0 then [] else Enumerate(n - 1, f) + [f(n)]
  }

  lemma {:induction false} EnumerateAt(n: nat, f: nat -> ChapterOption)
    ensures |Enumerate(n, f)| == n
    ensures forall k :: 0 <= k < n ==> Enumerate(n, f)[k] == f(k + 1)
  {
    if n > 0 {
      EnumerateAt(n - 1, f);
    }
  }

  /** Every option value is three digits that read back as the option's chapter number, so
      the values run "001".."100" and no two options share one. */
  lemma OptionValueIsPaddedNumber(i: nat)
    requires 1 <= i <= ChapterCount
    ensures |OptionFor(i).value| == 3 && AllDigits(OptionFor(i).value)
    ensures DigitsValue(OptionFor(i).value) == i
  {
    Pad3Value(NatToString(i));
  }

  lemma OptionValuesDistinct(i: nat, j: nat)
    requires 1 <= i <= ChapterCount && 1 <= j <= ChapterCount && i != j
    ensures OptionFor(i).value != OptionFor(j).value
  {
    OptionValueIsPaddedNumber(i);
    OptionValueIsPaddedNumber(j);
  }

  /** For chapter `n`, the audio path and the search title carry `n` as exactly three digits,
      and passing the selector's already padded value through the loader gives the same path
      and title as the bare number. */
  lemma ChapterPathAndTitle(n: nat)
    requires 1 <= n <= ChapterCount
    ensures var digits := OptionFor(n).value;
            && AudioPath(NatToString(n)) == "Audio_Sync_S_Verses_Only/Narayaneeyam_D" + digits + ".mp3"
            && SearchTitle(NatToString(n)) == "Narayaneeyam D" + digits
            && |digits| == 3 && AllDigits(digits) && DigitsValue(digits) == n
            && AudioPath(digits) == AudioPath(NatToString(n))
            && SearchTitle(digits) == SearchTitle(NatToString(n))
  {
    OptionValueIsPaddedNumber(n);
    Pad3Idempotent(NatToString(n));
  }
}
