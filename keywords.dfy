/**
 * The fixed vocabularies of the ingestion script, as literal data: the header labels that make a
 * line skippable, the deny words of non-meal items (pastries, snacks, dairy, drinks, condiments,
 * infant food, raw single ingredients), the allow words of meal shapes that override a deny match,
 * the label strings `clean_name` rejects and the characters it strips from the edges.
 */
module Keywords {

  /** Column titles and section labels; a line containing any of them is skipped whole. */
  const HeaderKeywords: seq<string> := [
    "음식의 분류", "음식군", "음식명", "No 음식명", "No", "빵, 과자류"
  ]

  /** Words that mark a candidate as something other than a meal dish. */
  const DenyKeywords: seq<string> := [
    "도우넛", "도넛", "롤빵", "식빵", "베이글", "머핀", "케이크", "파이",
    "크로쌍", "패스트리", "비스켓", "쿠키", "크래커", "웨하스", "샌드", "샌드위치",
    "토스트", "와플", "파운드", "스낵", "과자", "칩", "초코", "쵸코",
    "프링글", "콘칩", "콘푸로스트", "시리얼", "우유", "요구르트", "치즈", "푸딩",
    "커스터드", "아이스크림", "쉐이크", "빙수", "주스", "쥬스", "음료", "콜라",
    "사이다", "환타", "에이드", "이온음료", "코코넛수", "맥주", "소주", "와인",
    "위스키", "브랜디", "칵테일", "진", "럼", "보드카", "막걸리", "청주",
    "차", "커피", "라떼", "코코아", "장아찌", "피클", "젓", "젓갈",
    "소스", "드레싱", "식초", "가루", "분말", "다시다", "시럽", "이유식",
    "유아용과자", "생것", "말린것", "건조칩", "통조림", "가공품", "가공식품", "사과",
    "바나나", "딸기", "오렌지", "포도", "자몽", "키위", "수박", "멜론",
    "망고", "블루베리", "복숭아", "배", "체리", "상추", "양배추", "오이",
    "토마토", "파프리카", "당근", "감자", "고구마", "버섯", "견과", "호두",
    "아몬드", "땅콩", "김", "미역", "다시마"
  ]

  /** Meal-shape words; one of them rescues a candidate that also matches a deny word. */
  const AllowKeywords: seq<string> := [
    "밥", "덮밥", "국밥", "비빔밥", "볶음밥", "라이스", "리조또", "빠에야",
    "면", "국수", "라면", "우동", "냉면", "파스타", "스파게티", "짜장면",
    "짬뽕", "쫄면", "칼국수", "쌀국수", "국", "탕", "찌개", "전골",
    "수제비", "죽", "스프", "구이", "볶음", "조림", "튀김", "전",
    "부침", "찜", "수육", "샤브", "불고기", "두루치기", "잡채", "떡볶이",
    "김밥", "초밥", "카레", "돈까스", "스테이크", "피자", "핫도그", "버거",
    "타코", "분짜", "쌈", "비빔"
  ]

  /** Strings that `clean_name` rejects as table labels rather than names. */
  const NonNameLabels: seq<string> := ["음식명", "음식군", "No"]

  /** No table label contains a space, so a name of two words is never one. */
  lemma LabelsHaveNoSpace(n: string)
    requires ' ' in n
    ensures n !in NonNameLabels
  {
    assert ' ' !in "음식명" && ' ' !in "음식군" && ' ' !in "No";
  }

  /** The characters `clean_name` strips from both ends of a candidate. */
  predicate IsEdgeChar(c: char) {
    c in {' ', ',', '.', ';', '(', ')', '[', ']'}
  }

  /** The marker that ends a category label such as "밥류". */
  const CategorySuffix: char := '류'

  /** The longest stripped line the short-label rule looks at. */
  const ShortLabelMax: nat := 8
}
