# Customer-churn dashboard: load cleaning and row filter

This project models the logic of a customer-churn dashboard in Dafny. The dashboard loads a customer table once. On every change of its four filter controls (gender, contract types, payment method, senior citizen) it recomputes a filtered view of that table and redraws its charts from the view. What is modelled here is the part with logic:

- **Load-time cleaning** (module `Loader`). `TotalCharges` is coerced to a number, with NaN where that fails. Rows where it failed are dropped. Then each of the six service columns (`OnlineSecurity`, `OnlineBackup`, `DeviceProtection`, `TechSupport`, `StreamingTV`, `StreamingMovies`) is overwritten with a 0/1 flag, one column per pass. The flag is 1 exactly for the text `"Yes"`, `"DSL"` or `"Fiber optic"`. `Load` is a method with the same three steps as the dashboard's loader: the coercion, a loop that drops rows, and a loop over the service columns. It is proved equal to the specification function `Cleaned`, and lemmas about `Cleaned` state what loading promises.
- **The callback's row filter** (module `Filter`). `UpdateGraphs` applies the contract-set selection, which is always applied. It then narrows the view again for each of gender, payment method and senior flag whose control is not "All", reassigning the view each time. It is proved equal to `Selected`, a reference definition that selects once by the conjunction of all four controls. The lemmas give the properties of `Selected`: subsequence, membership, monotonicity, idempotence, identity under the default controls, the senior split, and that the narrowing steps may run in any order (`Step`, `Narrow`).
- **Boolean-mask selection** (module `Masks`). `Select(t, mask)` is `df[mask]`, and `Where(t, p)` is `df[p(df)]`. These carry the generic lemmas the other two modules use. `IsSubsequence(s, t)` means "some mask selects `s` from `t`": no element is added, none is repeated, and the order is kept.
- **Records** (module `Records`). `CsvRow` is a line of the input file as the reader types it. `Record` is a row of the in-memory table. `Cell` is a service cell, which holds text until the loader writes a flag over it.

`pd.to_numeric` on a single value is the parameter `parse: string -> Option<real>`, with `None` standing for NaN.

## Model

| member | source | states |
|---|---|---|
| `Loader.Coerce` | dashboard.py:10 | coercion copies every field but `TotalCharges` and the services; `TotalCharges` becomes `parse` of the file's text (None for NaN); each service cell holds the file's text, with the same number of cells |
| `Loader.ServiceFlag` | dashboard.py:18 | the flag written over a service cell is always 0 or 1, and it is 1 exactly when the cell holds the text "Yes", "DSL" or "Fiber optic" |
| `Loader.ServiceFlagTruthTable` | dashboard.py:18 | "Yes", "DSL" and "Fiber optic" map to 1; "No", "No internet service", "No phone service" and "" map to 0 |
| `Loader.BinariseColumn` | dashboard.py:17-18 | one pass of the service loop keeps the row count; in every row, cell `k` becomes the flag of its old value, and every other cell and field is unchanged |
| `Loader.FlagColumn` | dashboard.py:18 | on one row, cell `k` becomes the flag of its old value; the cell count, every other cell and every other field are unchanged |
| `Loader.BinariseServices` | dashboard.py:17-18 | binarising a row changes only its service columns; the number of columns stays the same; every column becomes a 0/1 flag that is 1 exactly for the three subscribed texts |
| `Loader.Load` | dashboard.py:10-18 | the coercion, the drop loop and the per-column binarisation loop together produce exactly the specified cleaned table `Cleaned` |
| `Loader.CleanedKeepsParsedRows` | dashboard.py:10-18 | the loaded table is exactly the file rows whose `TotalCharges` parsed, in their original order, each coerced and binarised; it has no more rows than the file |
| `Loader.LoadedRowsAreClean` | dashboard.py:10-18 | every loaded row has a numeric `TotalCharges` and six service flags, each 0 or 1 |
| `Loader.UnparseableRowIsDropped` | dashboard.py:10-11 | inserting a file row whose `TotalCharges` does not parse leaves the loaded table unchanged |
| `Filter.UpdateGraphs` | dashboard.py:113-120 | the contract selection and the three guarded reassignments of the view yield exactly the rows of the table that pass all four controls (`Selected`), in table order |
| `Filter.SelectedIsSubsequence` | dashboard.py:114-120 | the view is a mask selection of the table: no row invented, none duplicated (multiset inclusion), order kept, size at most the table's |
| `Filter.SelectedKeepsTableOrder` | dashboard.py:114-120 | the view's `k`-th row is table row `idx[k]`, the positions strictly increase, and they are exactly the positions of the rows passing all four controls, so a repeated matching row is kept every time it occurs |
| `Filter.SelectedMembership` | dashboard.py:114-120 | a row is in the view iff it is in the table, its contract is ticked, and gender, payment and senior are each "All" or equal to the row's value |
| `Filter.NoContractsSelectNothing` | dashboard.py:114 | with no contract ticked the view is empty, whatever the other controls are |
| `Filter.Defaults` | dashboard.py:39-70 | the initial controls are "All" for gender, payment and senior, and the contract control ticks exactly the contract values present in the table |
| `Filter.DefaultsSelectEverything` | dashboard.py:114-120 | with every contract value of the table ticked and the other three controls on "All", the view is the whole table, unchanged |
| `Filter.InitialViewIsWholeTable` | dashboard.py:39-70 | the controls' initial values (all contracts present in the table, "All" elsewhere) select the whole table |
| `Filter.ContractValues` | dashboard.py:48-49 | `df['Contract'].unique()` holds exactly the contract values of the table's rows |
| `Filter.SelectionMonotone` | dashboard.py:114-120 | unticking contracts or replacing "All" by a value gives the looser view narrowed further: a subsequence of it, never larger |
| `Filter.SelectionIdempotent` | dashboard.py:114-120 | filtering the view again with the same controls returns it unchanged |
| `Filter.SeniorPartition` | dashboard.py:119-120 | if every senior flag is 0 or 1, the view with senior "All" is the multiset union of the views for 0 and for 1, so its size is their sum |
| `Filter.NarrowIsConjunction` | dashboard.py:114-120 | narrowing the view step by step equals one selection by the conjunction of all the steps |
| `Filter.StepOrderIrrelevant` | dashboard.py:114-120 | any rearrangement of the narrowing steps yields the same view |
| `Filter.StepsOfMatch` | dashboard.py:114-120 | a row passes the steps the callback takes for a selection iff it passes the four controls |
| `Filter.NarrowingInAnyOrder` | dashboard.py:114-120 | the callback's narrowing steps, taken in any order, give the reference view of the selection |
| `Filter.Narrow` | dashboard.py:114-120 | reassigning the view once per step never makes it longer and never adds a row that is not in the table |
| `Filter.StepsOf` | dashboard.py:114-120 | the callback's steps start with the contract step, number at most four, and hold a gender, payment or senior step exactly when that control is set to that value |
| `Filter.OneCustomerExample` | dashboard.py:114-116 | a single month-to-month female customer is kept when gender is "All", and the view is empty when gender is "Male" |
| `Masks.Select` | dashboard.py:114 | a boolean-mask selection is never longer than its input and holds only elements of the input |
| `Masks.Where` | dashboard.py:114-120 | `df[p(df)]` is never longer than `df` and holds only rows of `df` |
| `Masks.MaskOf` | dashboard.py:114-120 | `df['col'] == v` has one entry per row, and entry `i` is the test applied to row `i` |
| `Masks.SelectKeepsOrder` | dashboard.py:114-120 | the `k`-th element of `t[mask]` is `t[idx[k]]`, the positions `idx` strictly increase, and they are exactly the positions where the mask is true |
| `Masks.WhereKeepsOrder` | dashboard.py:114-120 | the `k`-th element of `t[p(t)]` is `t[idx[k]]`, the positions `idx` strictly increase, and they are exactly the positions whose element passes the test |
| `Masks.WhereMembership` | dashboard.py:114-120 | an element is selected by a row test iff it is in the input and passes the test |
| `Masks.WhereWhere` | dashboard.py:116-120 | selecting by one test and then by another is one selection by their conjunction |
| `Masks.WhereIsSubsequence` | dashboard.py:114-120 | every selection is a subsequence of its input and a sub-multiset of it |
| `Masks.WhereSplit` | dashboard.py:119-120 | when the rows passing a test split into two disjoint tests, the selection is the multiset union of the two selections |

## Left out

- Reading the file (dashboard.py:9): file I/O. The model starts from the rows the reader produced, as `seq<CsvRow>`.
- The internals of `pd.to_numeric` (dashboard.py:10): it becomes the parameter `parse`, with `None` for a value it cannot convert.
- Load: requires every file row to have the six service columns. Without one of them the dashboard fails with a missing-column error, and that failure is not modelled.
- Load: other column types and dtype inference by the reader are not modelled. `seniorCitizen` and `tenure` are integers and `monthlyCharges` is a real as read.
- The dashboard layout, widgets, option lists and server start (dashboard.py:23-97, 157-158): UI plumbing. The model uses only the four controls' initial values (dashboard.py:39, 49, 60, 70), through `Defaults`: "All" for gender, payment method and senior flag, and the table's distinct contracts (`ContractValues`) for the contract control. Nothing else of the layout is used.
- The callback registration (dashboard.py:100-112): framework wiring. `UpdateGraphs` models the callback's filter as a method of its four arguments plus the table.
- The seven charts (dashboard.py:122-155): calls into a plotting library. This includes the per-churn means of the service flags and the correlation matrix (dashboard.py:140, 147), which are floating-point aggregations.
- UpdateGraphs: the "All" sentinel is a separate constructor of `Choice`. In the dashboard it is the string "All", so a gender or payment value literally spelled "All" could never be selected on its own. The model does not reproduce that collision.
- The binarisation counts "DSL" and "Fiber optic" as subscribed. Those texts belong to the internet-service column, not to the six service columns. The model keeps the test exactly as written.
