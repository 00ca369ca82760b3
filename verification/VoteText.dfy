/** The text form of a vote, such as "+30|address" (wallet/util.go and wallet/wallet.go). */
module VoteText {

  /** One vote (`up`) or unvote of `percent` percent for a candidate. */
  datatype VoteItem = VoteItem(up: bool, percent: int, cand: string)

  /** `Crash` is the index panic of the source on a text that starts with the separator. */
  datatype Parsed = Ok(item: VoteItem) | Invalid | Crash

  // ---------------------------------------------------------------- numbers

  predicate IsDigit(c: char) { '0' <= c <= '9' }

  predicate AllDigits(s: string) { forall i :: 0 <= i < |s| ==> IsDigit(s[i]) }

  function NatOf(s: string): nat
    requires AllDigits(s)
  {
    if s == [] then 0 else NatOf(s[..|s| - 1]) * 10 + (s[|s| - 1] as int - '0' as int)
  }

  /** strconv.Atoi with its error ignored: zero for anything that is not a number. */
  function Atoi(s: string): int {
    var body := if s != [] && (s[0] == '-' || s[0] == '+') then s[1..] else s;
    if body == [] || !AllDigits(body) then 0
    else
      var n: int := NatOf(body);
      if s[0] == '-' then -n else n
  }

  function Digits(n: nat): (s: string)
    ensures s != [] && AllDigits(s)
    decreases n
  {
    var last := [('0' as int + n % 10) as char];
    if n < 10 then last else Digits(n / 10) + last
  }

  /** strconv.Itoa */
  function Itoa(n: int): string {
    if n < 0 then "-" + Digits(-n) else Digits(n)
  }

  lemma {:induction false} NatOfDigits(n: nat)
    ensures NatOf(Digits(n)) == n
  {
    var s := Digits(n);
    if n >= 10 {
      NatOfDigits(n / 10);
      assert s[..|s| - 1] == Digits(n / 10);
    } else {
      assert s[..|s| - 1] == [];
    }
  }

  lemma AtoiItoa(n: int)
    ensures Atoi(Itoa(n)) == n
    ensures Itoa(n) != [] && '|' !in Itoa(n)
  {
    if n < 0 {
      NatOfDigits(-n);
      assert Itoa(n)[1..] == Digits(-n);
      assert AllDigits(Digits(-n));
    } else {
      NatOfDigits(n);
      assert AllDigits(Digits(n));
    }
  }

  // ---------------------------------------------------------------- votes

  /** Position of the first separator, or the length. */
  function FirstBar(s: string): (k: nat)
    ensures k <= |s| && '|' !in s[..k] && (k < |s| ==> s[k] == '|')
  {
    if s == [] || s[0] == '|' then 0
    else
      var k := 1 + FirstBar(s[1..]);
      assert s[..k] == [s[0]] + s[1..][..k - 1];
      k
  }

  /** What the parser can return. */
  type ParsedVote = p: Parsed | p.Ok? ==> 0 <= p.item.percent <= 100 && ValidName(p.item.cand) witness Invalid

  function ParseVote(vote: string): ParsedVote {
    if '|' !in vote then Invalid
    else
      var bar := FirstBar(vote);
      var head := vote[..bar];
      var rest := if bar < |vote| then vote[bar + 1..] else [];
      var cand := rest[..FirstBar(rest)];
      if head == [] then Crash
      else if head[0] != '-' && head[0] != '+' then Invalid
      else if head[1..] == [] then Invalid
      else
        var num := Atoi(head[1..]);
        if num < 0 || num > 100 then Invalid
        else if cand == "" then Invalid
        else Ok(VoteItem(head[0] == '+', num, cand))
  }

  /** The names a parsed vote can carry. */
  predicate ValidName(cand: string) {
    cand != "" && '|' !in cand
  }

  /** How GetVoteArray writes a vote. */
  function PrintVote(percent: int, cand: string): string {
    "+" + Itoa(percent) + "|" + cand
  }

  lemma BarAt(head: string, rest: string)
    requires '|' !in head
    ensures FirstBar(head + "|" + rest) == |head|
  {
    var s := head + "|" + rest;
    assert s[|head|] == '|';
    assert forall i :: 0 <= i < |head| ==> s[i] == head[i];
  }

  /** A printed vote reads back as the same vote exactly when the percentage is one the
      parser admits and the name is not empty and free of separators. */
  lemma PrintedVoteReadsBack(percent: int, cand: string)
    ensures ParseVote(PrintVote(percent, cand)) == Ok(VoteItem(true, percent, cand))
       <==> 0 <= percent <= 100 && ValidName(cand)
  {
    AtoiItoa(percent);
    var head := "+" + Itoa(percent);
    var vote := PrintVote(percent, cand);
    assert vote == head + "|" + cand;
    BarAt(head, cand);
    assert vote[..|head|] == head && vote[|head| + 1..] == cand;
    assert vote[|head|] == '|';
    assert head[1..] == Itoa(percent);
    if ValidName(cand) {
      assert FirstBar(cand) == |cand|;
      assert cand[..|cand|] == cand;
    }
  }

  lemma {:induction false} FirstBarIs(s: string, k: nat)
    requires k <= |s| && '|' !in s[..k] && (k < |s| ==> s[k] == '|')
    ensures FirstBar(s) == k
  {
    if k > 0 {
      assert s[..k][0] == s[0] && s[1..][..k - 1] == s[..k][1..];
      FirstBarIs(s[1..], k - 1);
    }
  }

  /** A text is `sign number|name`, possibly with more after another separator. */
  ghost predicate HasForm(vote: string, sign: char, num: string, cand: string, more: string) {
    vote == [sign] + num + "|" + cand + more && '|' !in num && '|' !in cand && (more == "" || more[0] == '|') && sign != '|'
  }

  /** Any text with a separator that is not its first character has this form. */
  lemma TextForm(vote: string) returns (sign: char, num: string, cand: string, more: string)
    requires '|' in vote && vote[0] != '|'
    ensures HasForm(vote, sign, num, cand, more)
  {
    var bar := FirstBar(vote);
    sign, num := vote[0], vote[1..bar];
    var rest := vote[bar + 1..];
    var end := FirstBar(rest);
    cand, more := rest[..end], rest[end..];
    assert vote == vote[..bar] + vote[bar..];
    assert vote[bar..] == "|" + rest;
    assert vote[..bar] == [sign] + num;
    assert rest == cand + more;
    assert num <= vote[..bar][1..];
  }

  lemma ParsedForm(vote: string, sign: char, num: string, cand: string, more: string)
    requires HasForm(vote, sign, num, cand, more)
    ensures ParseVote(vote) ==
            if (sign == '+' || sign == '-') && num != "" && 0 <= Atoi(num) <= 100 && cand != ""
            then Ok(VoteItem(sign == '+', Atoi(num), cand)) else Invalid
  {
    var head, rest := [sign] + num, cand + more;
    assert vote == head + "|" + rest;
    assert '|' in vote by {
      assert vote[|head|] == '|';
    }
    BarAt(head, rest);
    FirstBarIs(rest, |cand|);
    assert vote[..|head|] == head && vote[|head| + 1..] == rest && rest[..|cand|] == cand;
    assert head[1..] == num;
  }

  /** What the parser makes of any text. Without a separator it is invalid; with one in front the
      source panics; otherwise it has a sign, a number and a name, and it is a vote (with a plus)
      or an unvote (with a minus) exactly when the number is there and is a percentage, and the
      name is not empty. What follows a second separator is ignored. */
  lemma ParseVoteMeans(vote: string)
    ensures '|' !in vote ==> ParseVote(vote) == Invalid
    ensures vote != "" && vote[0] == '|' ==> ParseVote(vote) == Crash
    ensures forall sign, num, cand, more :: HasForm(vote, sign, num, cand, more) ==>
              ParseVote(vote) ==
              if (sign == '+' || sign == '-') && num != "" && 0 <= Atoi(num) <= 100 && cand != ""
              then Ok(VoteItem(sign == '+', Atoi(num), cand)) else Invalid
  {
    forall sign, num, cand, more | HasForm(vote, sign, num, cand, more)
      ensures ParseVote(vote) ==
              if (sign == '+' || sign == '-') && num != "" && 0 <= Atoi(num) <= 100 && cand != ""
              then Ok(VoteItem(sign == '+', Atoi(num), cand)) else Invalid
    {
      ParsedForm(vote, sign, num, cand, more);
    }
  }

  /** An unvote in the same form reads back as an unvote. */
  lemma UnvoteReadsBack(percent: int, cand: string)
    requires 0 <= percent <= 100 && ValidName(cand)
    ensures ParseVote("-" + Itoa(percent) + "|" + cand) == Ok(VoteItem(false, percent, cand))
  {
    AtoiItoa(percent);
    var vote := "-" + Itoa(percent) + "|" + cand;
    assert vote == ['-'] + Itoa(percent) + "|" + cand + "";
    ParsedForm(vote, '-', Itoa(percent), cand, "");
  }

  /** Numbers are read in base ten, with an optional sign, and anything else is zero. */
  lemma AtoiMeans(s: string, c: char)
    ensures s != "" && AllDigits(s) && IsDigit(c) ==> Atoi(s + [c]) == 10 * Atoi(s) + (c as int - '0' as int)
    ensures IsDigit(c) ==> Atoi([c]) == c as int - '0' as int
    ensures s != "" && AllDigits(s) ==> Atoi("+" + s) == Atoi(s) && Atoi("-" + s) == -Atoi(s)
    ensures !AllDigits(s) && (s == "" || (s[0] != '+' && s[0] != '-')) ==> Atoi(s) == 0
  {
    assert (s + [c])[..|s|] == s;
    assert IsDigit(c) ==> AllDigits([c]) && NatOf([c]) == NatOf([c][..0]) * 10 + (c as int - '0' as int);
    assert ("+" + s)[1..] == s && ("-" + s)[1..] == s;
    if s != "" && AllDigits(s) {
      assert IsDigit(s[0]);
    }
  }
}
