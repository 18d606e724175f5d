/** `gen_vietnamese_names`: full names drawn from a surname list, a middle-name
    list and a given-name list until enough distinct names are collected. */
module Names {
  import opened Wrappers

  const HoList: seq<string> := [
    "Nguyễn", "Trần", "Lê", "Phạm", "Hoàng", "Huỳnh", "Phan", "Vũ", "Võ", "Đặng",
    "Bùi", "Đỗ", "Hồ", "Ngô", "Dương", "Lý", "Đinh", "Trương", "Hà", "Vương"
  ]

  /** The last entry is empty: a name without a middle part. */
  const DemList: seq<string> := [
    "Văn", "Thị", "Hữu", "Ngọc", "Quang", "Minh", "Tuấn", "Thanh", "Thị Thu", "Thái",
    "Gia", "Xuân", "Trung", "Đức", "Thành", "Hồng", "Thị Hồng", "Phương", "Khánh", ""
  ]

  const TenList: seq<string> := [
    "Anh", "Bình", "Châu", "Dũng", "Dung", "Hoa", "Hòa", "Hoàng", "Huy", "Hùng",
    "Kiên", "Lan", "Linh", "Long", "Mai", "Minh", "Nam", "Ngân", "Ngọc", "Nhung",
    "Phúc", "Phương", "Quân", "Quang", "Sơn", "Thảo", "Thành", "Thu", "Thủy", "Trang",
    "Triệu", "Trinh", "Trung", "Tuấn", "Tùng", "Việt", "Vy", "Yến", "Bảo", "Cường"
  ]

  predicate NoSpace(s: string) {
    forall i | 0 <= i < |s| :: s[i] != ' '
  }

  /** `f"{ho} {dem} {ten}"`, or `f"{ho} {ten}"` when the middle part is empty. */
  function FullName(ho: string, dem: string, ten: string): string {
    if dem != "" then ho + " " + dem + " " + ten else ho + " " + ten
  }

  /** The length of the space-free head of `s`. */
  function LeadingWord(s: string): (k: nat)
    ensures k <= |s|
  {
    if s == [] || s[0] == ' ' then 0 else 1 + LeadingWord(s[1..])
  }

  /** The length of the space-free tail of `s`. */
  function TrailingWord(s: string): (k: nat)
    ensures k <= |s|
  {
    if s == [] || s[|s| - 1] == ' ' then 0 else 1 + TrailingWord(s[..|s| - 1])
  }

  lemma {:induction false} LeadingWordOf(a: string, b: string)
    requires NoSpace(a)
    ensures LeadingWord(a + " " + b) == |a|
    decreases |a|
  {
    if a != [] {
      assert (a + " " + b)[1..] == a[1..] + " " + b;
      LeadingWordOf(a[1..], b);
    } else {
      assert (a + " " + b)[0] == ' ';
    }
  }

  lemma {:induction false} TrailingWordOf(a: string, b: string)
    requires NoSpace(b)
    ensures TrailingWord(a + " " + b) == |b|
    decreases |b|
  {
    var s := a + " " + b;
    if b != [] {
      assert s[..|s| - 1] == a + " " + b[..|b| - 1];
      TrailingWordOf(a, b[..|b| - 1]);
    } else {
      assert s[|s| - 1] == ' ';
    }
  }

  /** Splits a full name back into surname, middle part and given name: the
      first word, the last word, and whatever lies between them. */
  function ParseName(s: string): (string, string, string) {
    var i := LeadingWord(s);
    var k := TrailingWord(s);
    var ten := s[|s| - k..];
    if i + 1 + k >= |s| then (s[..i], "", ten) else (s[..i], s[i + 1..|s| - k - 1], ten)
  }

  /** A full name determines its three parts, provided the surname and the
      given name are single words; the middle part may hold spaces. */
  lemma ParseFullName(ho: string, dem: string, ten: string)
    requires NoSpace(ho) && NoSpace(ten)
    ensures ParseName(FullName(ho, dem, ten)) == (ho, dem, ten)
  {
    var s := FullName(ho, dem, ten);
    if dem != "" {
      assert s == ho + " " + (dem + " " + ten);
      LeadingWordOf(ho, dem + " " + ten);
      assert s == (ho + " " + dem) + " " + ten;
      TrailingWordOf(ho + " " + dem, ten);
      assert s[|ho| + 1..|s| - |ten| - 1] == dem;
    } else {
      LeadingWordOf(ho, ten);
      TrailingWordOf(ho, ten);
    }
    assert s[..|ho|] == ho;
    assert s[|s| - |ten|..] == ten;
  }

  lemma FullNameInjective(h1: string, d1: string, t1: string, h2: string, d2: string, t2: string)
    requires NoSpace(h1) && NoSpace(t1) && NoSpace(h2) && NoSpace(t2)
    ensures FullName(h1, d1, t1) == FullName(h2, d2, t2) <==> h1 == h2 && d1 == d2 && t1 == t2
  {
    ParseFullName(h1, d1, t1);
    ParseFullName(h2, d2, t2);
  }

  /** Surnames are single words. */
  lemma SurnamesAreWords()
    ensures forall i | 0 <= i < |HoList| :: NoSpace(HoList[i])
  {
  }

  /** Given names are single words. */
  lemma GivenNamesAreWords()
    ensures forall i | 0 <= i < |TenList| :: NoSpace(TenList[i])
  {
    assert forall i | 0 <= i < 20 :: NoSpace(TenList[i]);
    assert forall i | 20 <= i < 40 :: NoSpace(TenList[i]);
  }

  /** The three `random.choice` draws of one loop iteration, as list positions. */
  datatype Pick = Pick(ho: nat, dem: nat, ten: nat)

  predicate ValidPick(p: Pick) {
    p.ho < |HoList| && p.dem < |DemList| && p.ten < |TenList|
  }

  predicate ValidPicks(picks: seq<Pick>) {
    forall i | 0 <= i < |picks| :: ValidPick(picks[i])
  }

  function PickName(p: Pick): string
    requires ValidPick(p)
  {
    FullName(HoList[p.ho], DemList[p.dem], TenList[p.ten])
  }

  /** Different draws give different names, so the set grows exactly when the
      drawn triple of strings has not been drawn before. */
  lemma PickNameInjective(p: Pick, q: Pick)
    requires ValidPick(p) && ValidPick(q)
    ensures PickName(p) == PickName(q) <==>
      HoList[p.ho] == HoList[q.ho] && DemList[p.dem] == DemList[q.dem] && TenList[p.ten] == TenList[q.ten]
  {
    SurnamesAreWords();
    GivenNamesAreWords();
    FullNameInjective(HoList[p.ho], DemList[p.dem], TenList[p.ten], HoList[q.ho], DemList[q.dem], TenList[q.ten]);
  }

  /** The names the first `|picks|` iterations put in the set. */
  function NamesOf(picks: seq<Pick>): set<string>
    requires ValidPicks(picks)
  {
    if picks == [] then {} else NamesOf(picks[..|picks| - 1]) + {PickName(picks[|picks| - 1])}
  }

  lemma NamesOfStep(picks: seq<Pick>, i: nat)
    requires ValidPicks(picks) && i < |picks|
    ensures NamesOf(picks[..i + 1]) == NamesOf(picks[..i]) + {PickName(picks[i])}
  {
    assert picks[..i + 1][..i] == picks[..i];
  }

  lemma {:induction false} NamesOfPrefix(picks: seq<Pick>, k: nat)
    requires ValidPicks(picks) && k <= |picks|
    ensures NamesOf(picks[..k]) <= NamesOf(picks)
    decreases |picks|
  {
    if k < |picks| {
      assert picks[..|picks| - 1][..k] == picks[..k];
      NamesOfPrefix(picks[..|picks| - 1], k);
    } else {
      assert picks[..k] == picks;
    }
  }

  lemma {:induction false} SubsetCard(a: set<string>, b: set<string>)
    requires a <= b
    ensures |a| <= |b|
    decreases |b|
  {
    if a != {} {
      var x :| x in a;
      SubsetCard(a - {x}, b - {x});
    }
  }

  /** The loop of `gen_vietnamese_names`, run on a finite stream of draws.
      `None` stands for a stream that ends before `n` distinct names have come
      up, where the source would keep drawing. */
  method GenNames(n: nat, picks: seq<Pick>) returns (r: Option<set<string>>)
    requires ValidPicks(picks)
    ensures r.Some? <==> n <= |NamesOf(picks)|
    ensures r.Some? ==> |r.value| == n
    ensures r.Some? ==> exists k | 0 <= k <= |picks| :: r.value == NamesOf(picks[..k])
  {
    var names: set<string> := {};
    var i := 0;
    while |names| < n && i < |picks|
      invariant 0 <= i <= |picks|
      invariant names == NamesOf(picks[..i])
      invariant |names| <= n
      decreases |picks| - i
    {
      var p := picks[i];
      var name := FullName(HoList[p.ho], DemList[p.dem], TenList[p.ten]);
      NamesOfStep(picks, i);
      names := names + {name};
      i := i + 1;
    }
    NamesOfPrefix(picks, i);
    if |names| < n {
      assert picks[..i] == picks;
      return None;
    }
    SubsetCard(names, NamesOf(picks));
    return Some(names);
  }
}
